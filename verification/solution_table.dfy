/**
  The solution table: a bounded map from slot number to a vote (solution,
  penalty sum, fairness) in which -1 marks a score not given yet, together with
  a snapshot of the best vote seen so far. Slots are scanned in ascending order
  wherever the table iterates over its entries.
*/
module SolutionTable {
  import opened Wrappers
  import opened Timetable

  /**
    Number of slots. The configured value is not part of this model; nothing
    below depends on it except that it is at least 2, which the two-slot
    example `BySlotChargesLowestCopy` needs.
  */
  const TABLE_SIZE: int := 100

  /** Marks a penalty sum or fairness that has not been submitted yet. */
  const UNSCORED: int := -1

  datatype TableError =
    | PeriodsMismatch            // the coding does not have one row per period
    | RoomsMismatch(period: nat) // the first period whose row does not have one cell per room
    | SlotOutOfRange             // a slot number outside 0 .. TABLE_SIZE - 1
    | SolutionNotFound           // no slot holds the solution
    | NoBestSolution             // no fairness has been submitted yet

  /** A solution with its accumulated penalty sum and its fairness. */
  datatype Vote = Vote(solution: Solution, penaltySum: int, fairness: int)

  datatype Table = Table(votes: map<int, Vote>, best: Option<Vote>)

  predicate InRange(slot: int) {
    0 <= slot < TABLE_SIZE
  }

  /** Every occupied slot is a legal slot number. */
  predicate Valid(t: Table) {
    forall k :: k in t.votes ==> InRange(k)
  }

  /** Some slot holds this solution. */
  predicate Tracked(t: Table, s: Solution) {
    exists k :: k in t.votes && t.votes[k].solution == s
  }

  /** Lexicographic order on (penalty sum, fairness): lower is better. */
  predicate Better(a: Vote, b: Vote) {
    a.penaltySum < b.penaltySum || (a.penaltySum == b.penaltySum && a.fairness < b.fairness)
  }

  predicate AtLeastAsGood(a: Vote, b: Vote) {
    !Better(b, a)
  }

  /** The table as constructed: no solution is tracked and there is no best vote yet. */
  function EmptyTable(): (t: Table)
    ensures Valid(t)
    ensures forall s :: !Tracked(t, s)
    ensures forall slot :: slot !in t.votes
    ensures t.best.None?
  {
    Table(map[], None)
  }

  // ---------------------------------------------------------------------------
  // Construction of solutions
  // ---------------------------------------------------------------------------

  /** The first period at or after `from` whose row does not have `rooms` cells. */
  function FirstBadPeriod(coding: Grid, rooms: nat, from: nat): (b: Option<nat>)
    requires from <= |coding|
    ensures b.Some? ==> from <= b.value < |coding| && |coding[b.value]| != rooms
    ensures b.Some? ==> forall p :: from <= p < b.value ==> |coding[p]| == rooms
    ensures b.None? <==> forall p :: from <= p < |coding| ==> |coding[p]| == rooms
    decreases |coding| - from
  {
    if from == |coding| then None
    else if |coding[from]| != rooms then Some(from)
    else FirstBadPeriod(coding, rooms, from + 1)
  }

  /**
    Builds a solution after checking the coding's shape: first the number of
    periods, then each period's number of rooms in order.
  */
  function CreateNewSolution(coding: Grid, inst: Instance): (r: Result<Solution, TableError>)
    ensures r.Success? <==> Fits(coding, inst)
    ensures r.Success? ==> r.value.coding == coding && r.value.instance == inst
    ensures r == Failure(PeriodsMismatch) <==> |coding| != inst.Periods()
    ensures r.Failure? ==> r.error.PeriodsMismatch? || r.error.RoomsMismatch?
    ensures r.Failure? && r.error.RoomsMismatch? ==>
      && r.error.period < |coding|
      && |coding[r.error.period]| != inst.rooms
      && forall p :: 0 <= p < r.error.period ==> |coding[p]| == inst.rooms
  {
    if |coding| != inst.Periods() then Failure(PeriodsMismatch)
    else
      match FirstBadPeriod(coding, inst.rooms, 0)
      case Some(p) => Failure(RoomsMismatch(p))
      case None => Success(Solution(coding, inst))
  }

  // ---------------------------------------------------------------------------
  // Slot-addressed access
  // ---------------------------------------------------------------------------

  function CheckSolutionNumber(slot: int): (o: Outcome<TableError>)
    ensures o.Pass? <==> InRange(slot)
    ensures o.Fail? ==> o.error == SlotOutOfRange
  {
    if slot < 0 || slot >= TABLE_SIZE then Fail(SlotOutOfRange) else Pass
  }

  /** The solution held in a slot, `None` for an empty slot. */
  function GetSolution(t: Table, slot: int): (r: Result<Option<Solution>, TableError>)
    ensures r.Failure? <==> !InRange(slot)
    ensures r.Failure? ==> r.error == SlotOutOfRange
    ensures r.Success? ==> (r.value.Some? <==> slot in t.votes)
    ensures r.Success? && slot in t.votes ==> r.value.value == t.votes[slot].solution
  {
    if CheckSolutionNumber(slot).Fail? then Failure(SlotOutOfRange)
    else if slot in t.votes then Success(Some(t.votes[slot].solution))
    else Success(None)
  }

  /** Installs an unscored vote for the solution in the slot; nothing else changes. */
  function PutSolution(t: Table, slot: int, s: Solution): (r: Result<Table, TableError>)
    requires Valid(t)
    ensures r.Failure? <==> !InRange(slot)
    ensures r.Failure? ==> r.error == SlotOutOfRange
    ensures r.Success? ==> Valid(r.value) && r.value.best == t.best
    ensures r.Success? ==> slot in r.value.votes && r.value.votes[slot] == Vote(s, UNSCORED, UNSCORED)
    ensures r.Success? ==> forall k :: k != slot ==> (k in r.value.votes <==> k in t.votes)
    ensures r.Success? ==> forall k :: k != slot && k in t.votes ==> r.value.votes[k] == t.votes[k]
  {
    if CheckSolutionNumber(slot).Fail? then Failure(SlotOutOfRange)
    else Success(t.(votes := t.votes[slot := Vote(s, UNSCORED, UNSCORED)]))
  }

  /** Reading a slot right after writing it gives back the solution written. */
  lemma PutThenGet(t: Table, slot: int, s: Solution)
    requires Valid(t) && InRange(slot)
    ensures PutSolution(t, slot, s).Success?
    ensures GetSolution(PutSolution(t, slot, s).value, slot) == Success(Some(s))
  {
  }

  /** The table never holds more solutions than it has slots. */
  function GetActualSolutionTableCount(t: Table): (n: nat)
    requires Valid(t)
    ensures n <= TABLE_SIZE
  {
    SlotsBounded(t.votes.Keys, TABLE_SIZE);
    |t.votes|
  }

  lemma {:induction false} SlotsBounded(keys: set<int>, n: nat)
    requires n >= 1
    requires forall k :: k in keys ==> 0 <= k < n
    ensures |keys| <= n
  {
    if n > 1 {
      var rest := keys - {n - 1};
      SlotsBounded(rest, n - 1);
      assert keys <= rest + {n - 1};
      assert |keys| <= |rest + {n - 1}| <= |rest| + 1;
    } else {
      forall k | k in keys
        ensures k in {0}
      {
        assert 0 <= k < n;
      }
      if 0 in keys {
        assert keys == {0};
      } else {
        assert keys == {};
      }
    }
  }

  // ---------------------------------------------------------------------------
  // Lookup by solution
  // ---------------------------------------------------------------------------

  /** The lowest slot at or after `k` holding the solution. */
  function FindVoteFrom(votes: map<int, Vote>, s: Solution, k: int): (r: Option<int>)
    requires 0 <= k <= TABLE_SIZE
    ensures r.Some? ==> k <= r.value < TABLE_SIZE && r.value in votes && votes[r.value].solution == s
    ensures r.Some? ==> forall j :: k <= j < r.value && j in votes ==> votes[j].solution != s
    ensures r.None? <==> forall j :: k <= j < TABLE_SIZE && j in votes ==> votes[j].solution != s
    decreases TABLE_SIZE - k
  {
    if k == TABLE_SIZE then None
    else if k in votes && votes[k].solution == s then Some(k)
    else FindVoteFrom(votes, s, k + 1)
  }

  /** The slot whose vote belongs to the solution: the lowest one holding it. */
  function FindVote(t: Table, s: Solution): (r: Result<int, TableError>)
    requires Valid(t)
    ensures r.Failure? <==> !Tracked(t, s)
    ensures r.Failure? ==> r.error == SolutionNotFound
    ensures r.Success? ==> r.value in t.votes && t.votes[r.value].solution == s
    ensures r.Success? ==> forall j :: j in t.votes && j < r.value ==> t.votes[j].solution != s
  {
    match FindVoteFrom(t.votes, s, 0)
    case Some(k) => Success(k)
    case None => Failure(SolutionNotFound)
  }

  // ---------------------------------------------------------------------------
  // Penalty and fairness
  // ---------------------------------------------------------------------------

  /** A new penalty sum: an unset sum counts as 0 before the points are added. */
  function Accumulate(sum: int, points: int): int {
    (if sum == UNSCORED then 0 else sum) + points
  }

  /**
    Adds penalty points to the solution's vote. Only that vote's penalty sum
    changes; the first submission stores exactly the points.
  */
  function AddPenaltyToSolution(t: Table, s: Solution, points: int): (r: Result<Table, TableError>)
    requires Valid(t)
    ensures r.Failure? <==> !Tracked(t, s)
    ensures r.Failure? ==> r.error == SolutionNotFound
    ensures r.Success? ==> Valid(r.value) && r.value.best == t.best && r.value.votes.Keys == t.votes.Keys
    ensures r.Success? ==>
      var k := FindVote(t, s).value;
      && r.value.votes[k].solution == s
      && r.value.votes[k].fairness == t.votes[k].fairness
      && (t.votes[k].penaltySum == UNSCORED ==> r.value.votes[k].penaltySum == points)
      && (t.votes[k].penaltySum != UNSCORED ==> r.value.votes[k].penaltySum == t.votes[k].penaltySum + points)
      && forall j :: j in t.votes && j != k ==> r.value.votes[j] == t.votes[j]
  {
    match FindVote(t, s)
    case Failure(e) => Failure(e)
    case Success(k) =>
      var v := t.votes[k];
      Success(t.(votes := t.votes[k := v.(penaltySum := Accumulate(v.penaltySum, points))]))
  }

  /**
    Adds penalty points to the vote of the solution held in a slot. The vote is
    found by looking the solution up again, so when an equal solution sits in a
    lower slot, that lower slot is the one charged.
  */
  function AddPenaltyBySlot(t: Table, slot: int, points: int): (r: Result<Table, TableError>)
    requires Valid(t)
    ensures r == Failure(SlotOutOfRange) <==> !InRange(slot)
    ensures InRange(slot) && slot !in t.votes ==> r == Failure(SolutionNotFound)
    ensures InRange(slot) && slot in t.votes ==> r.Success?
    ensures InRange(slot) && slot in t.votes ==>
      r == AddPenaltyToSolution(t, t.votes[slot].solution, points)
    ensures InRange(slot) && slot in t.votes ==>
      var k := FindVote(t, t.votes[slot].solution).value;
      && k <= slot && t.votes[k].solution == t.votes[slot].solution
      && r.value.votes[k].penaltySum == Accumulate(t.votes[k].penaltySum, points)
      && (forall j :: j in t.votes && j != k ==> r.value.votes[j] == t.votes[j])
      && r.value.best == t.best
  {
    match GetSolution(t, slot)
    case Failure(e) => Failure(e)
    case Success(None) => Failure(SolutionNotFound)
    case Success(Some(s)) => AddPenaltyToSolution(t, s, points)
  }

  /** The penalty sum of the solution's vote: the one in the lowest slot holding it. */
  function GetPenaltySumForSolution(t: Table, s: Solution): (r: Result<int, TableError>)
    requires Valid(t)
    ensures r.Failure? <==> !Tracked(t, s)
    ensures r.Failure? ==> r.error == SolutionNotFound
    ensures r.Success? ==> exists k ::
      && k in t.votes && t.votes[k].solution == s && t.votes[k].penaltySum == r.value
      && forall j :: j in t.votes && j < k ==> t.votes[j].solution != s
  {
    match FindVote(t, s)
    case Failure(e) => Failure(e)
    case Success(k) => Success(t.votes[k].penaltySum)
  }

  /** The penalty sum of the solution held in a slot. */
  function GetPenaltySumBySlot(t: Table, slot: int): (r: Result<int, TableError>)
    requires Valid(t)
    ensures r == Failure(SlotOutOfRange) <==> !InRange(slot)
    ensures InRange(slot) && slot !in t.votes ==> r == Failure(SolutionNotFound)
    ensures InRange(slot) && slot in t.votes ==> r.Success?
    ensures r.Success? ==> exists k ::
      && k in t.votes && k <= slot && t.votes[k].solution == t.votes[slot].solution && t.votes[k].penaltySum == r.value
      && forall j :: j in t.votes && j < k ==> t.votes[j].solution != t.votes[slot].solution
  {
    match GetSolution(t, slot)
    case Failure(e) => Failure(e)
    case Success(None) => Failure(SolutionNotFound)
    case Success(Some(s)) => GetPenaltySumForSolution(t, s)
  }

  /**
    Keeps the better of the best vote so far and the current one; on a tie in
    both penalty and fairness the best vote so far stays.
  */
  function UpdateBestSolution(best: Vote, current: Vote): (b: Vote)
    ensures b == best || b == current
    ensures AtLeastAsGood(b, best) && AtLeastAsGood(b, current)
    ensures b != best ==> Better(current, best)
  {
    if current.penaltySum < best.penaltySum then current
    else if current.penaltySum == best.penaltySum && current.fairness < best.fairness then current
    else best
  }

  /**
    Overwrites the solution's fairness and re-evaluates the best vote: the
    first submission becomes best, later ones replace it only when better.
  */
  function AddFairnessToSolution(t: Table, s: Solution, fairness: int): (r: Result<Table, TableError>)
    requires Valid(t)
    ensures r.Failure? <==> !Tracked(t, s)
    ensures r.Failure? ==> r.error == SolutionNotFound
    ensures r.Success? ==> Valid(r.value) && r.value.votes.Keys == t.votes.Keys && r.value.best.Some?
    ensures r.Success? ==>
      var k := FindVote(t, s).value;
      var v := r.value.votes[k];
      && v == t.votes[k].(fairness := fairness)
      && (forall j :: j in t.votes && j != k ==> r.value.votes[j] == t.votes[j])
      && (t.best.None? ==> r.value.best == Some(v))
      && (t.best.Some? ==> AtLeastAsGood(r.value.best.value, t.best.value))
      && (t.best.Some? ==> AtLeastAsGood(r.value.best.value, v))
      && (t.best.Some? && r.value.best.value != t.best.value ==> r.value.best == Some(v) && Better(v, t.best.value))
  {
    match FindVote(t, s)
    case Failure(e) => Failure(e)
    case Success(k) =>
      var v := t.votes[k].(fairness := fairness);
      var best := if t.best.None? then Vote(s, v.penaltySum, fairness) else UpdateBestSolution(t.best.value, v);
      Success(Table(t.votes[k := v], Some(best)))
  }

  /**
    Sets the fairness of the solution held in a slot. As with the penalty, the
    vote updated is that of the lowest slot holding an equal solution.
  */
  function AddFairnessBySlot(t: Table, slot: int, fairness: int): (r: Result<Table, TableError>)
    requires Valid(t)
    ensures r == Failure(SlotOutOfRange) <==> !InRange(slot)
    ensures InRange(slot) && slot !in t.votes ==> r == Failure(SolutionNotFound)
    ensures InRange(slot) && slot in t.votes ==> r.Success?
    ensures InRange(slot) && slot in t.votes ==>
      r == AddFairnessToSolution(t, t.votes[slot].solution, fairness)
    ensures InRange(slot) && slot in t.votes ==>
      var k := FindVote(t, t.votes[slot].solution).value;
      && k <= slot && t.votes[k].solution == t.votes[slot].solution
      && r.value.votes[k] == t.votes[k].(fairness := fairness)
      && (forall j :: j in t.votes && j != k ==> r.value.votes[j] == t.votes[j])
  {
    match GetSolution(t, slot)
    case Failure(e) => Failure(e)
    case Success(None) => Failure(SolutionNotFound)
    case Success(Some(s)) => AddFairnessToSolution(t, s, fairness)
  }

  /**
    Two slots holding the same solution: points sent through the higher slot
    are charged to the lower one, and the higher slot's vote stays unscored.
  */
  lemma BySlotChargesLowestCopy(s: Solution)
    ensures var t := Table(map[0 := Vote(s, 5, UNSCORED), 1 := Vote(s, UNSCORED, UNSCORED)], None);
      && Valid(t)
      && AddPenaltyBySlot(t, 1, 7).Success?
      && AddPenaltyBySlot(t, 1, 7).value.votes[0].penaltySum == 12
      && AddPenaltyBySlot(t, 1, 7).value.votes[1].penaltySum == UNSCORED
  {
    var t := Table(map[0 := Vote(s, 5, UNSCORED), 1 := Vote(s, UNSCORED, UNSCORED)], None);
    assert FindVote(t, s) == Success(0);
  }

  // ---------------------------------------------------------------------------
  // Best solution
  // ---------------------------------------------------------------------------

  function GetBestSolution(t: Table): (r: Option<Solution>)
    ensures r.Some? <==> t.best.Some?
    ensures r.Some? ==> r.value == t.best.value.solution
  {
    if t.best.None? then None else Some(t.best.value.solution)
  }

  function GetBestSolutionPenaltySum(t: Table): (r: Result<int, TableError>)
    ensures r.Failure? <==> t.best.None?
    ensures r.Failure? ==> r.error == NoBestSolution
    ensures r.Success? ==> r.value == t.best.value.penaltySum
  {
    if t.best.None? then Failure(NoBestSolution) else Success(t.best.value.penaltySum)
  }

  // ---------------------------------------------------------------------------
  // Eviction
  // ---------------------------------------------------------------------------

  /**
    The scan for the worst slot from slot `k` on: `worst` is -1 before the first
    occupied slot is met; afterwards a slot replaces it only with a strictly
    larger penalty sum.
  */
  function ScanWorst(votes: map<int, Vote>, k: int, worst: int): (w: int)
    requires 0 <= k <= TABLE_SIZE
    requires worst == -1 ==> forall j :: 0 <= j < k ==> j !in votes
    requires worst != -1 ==> 0 <= worst < k && worst in votes
    requires worst != -1 ==> forall j :: 0 <= j < k && j in votes ==> votes[j].penaltySum <= votes[worst].penaltySum
    requires worst != -1 ==> forall j :: 0 <= j < worst && j in votes ==> votes[j].penaltySum < votes[worst].penaltySum
    ensures w == -1 ==> forall j :: 0 <= j < TABLE_SIZE ==> j !in votes
    ensures w != -1 ==> 0 <= w < TABLE_SIZE && w in votes
    ensures w != -1 ==> forall j :: 0 <= j < TABLE_SIZE && j in votes ==> votes[j].penaltySum <= votes[w].penaltySum
    ensures w != -1 ==> forall j :: 0 <= j < w && j in votes ==> votes[j].penaltySum < votes[w].penaltySum
    decreases TABLE_SIZE - k
  {
    if k == TABLE_SIZE then worst
    else if k !in votes then ScanWorst(votes, k + 1, worst)
    else if worst == -1 then ScanWorst(votes, k + 1, k)
    else if votes[k].penaltySum > votes[worst].penaltySum then ScanWorst(votes, k + 1, k)
    else ScanWorst(votes, k + 1, worst)
  }

  /**
    The slot to evict: the occupied slot with the largest penalty sum, the
    lowest such slot on a tie, and slot 0 when the table is empty.
  */
  function WorstSlot(t: Table): (w: int)
    requires Valid(t)
    ensures InRange(w)
    ensures |t.votes| == 0 ==> w == 0
    ensures |t.votes| > 0 ==> w in t.votes
    ensures |t.votes| > 0 ==> forall j :: j in t.votes ==> t.votes[j].penaltySum <= t.votes[w].penaltySum
    ensures |t.votes| > 0 ==> forall j :: j in t.votes && j < w ==> t.votes[j].penaltySum < t.votes[w].penaltySum
  {
    var w := ScanWorst(t.votes, 0, -1);
    if w == -1 then
      assert t.votes.Keys == {} by {
        forall j | j in t.votes
          ensures false
        {
        }
      }
      0
    else w
  }

  /**
    Overwrites the worst slot with an unscored vote for the new solution. It
    never fails; every other slot and the best vote stay as they were.
  */
  function ReplaceWorstSolution(t: Table, s: Solution): (r: Table)
    requires Valid(t)
    ensures Valid(r) && r.best == t.best
    ensures WorstSlot(t) in r.votes && r.votes[WorstSlot(t)] == Vote(s, UNSCORED, UNSCORED)
    ensures |t.votes| > 0 ==> r.votes.Keys == t.votes.Keys
    ensures |t.votes| == 0 ==> r.votes.Keys == {0}
    ensures forall j :: j in t.votes && j != WorstSlot(t) ==> r.votes[j] == t.votes[j]
  {
    var w := WorstSlot(t);
    t.(votes := t.votes[w := Vote(s, UNSCORED, UNSCORED)])
  }

  // ---------------------------------------------------------------------------
  // Sequences of submissions
  // ---------------------------------------------------------------------------

  /** Submits the penalty points one after the other for the same solution. */
  function AddPenalties(t: Table, s: Solution, points: seq<int>): Result<Table, TableError>
    requires Valid(t)
  {
    if |points| == 0 then Success(t)
    else
      match AddPenalties(t, s, points[..|points| - 1])
      case Failure(e) => Failure(e)
      case Success(t') => AddPenaltyToSolution(t', s, points[|points| - 1])
  }

  /**
    Penalty submissions form a running sum: after an unscored vote receives the
    nonnegative points `p1 .. pn`, its penalty sum is `p1 + .. + pn`; no other
    slot changes.
  */
  lemma {:induction false} PenaltyIsRunningSum(t: Table, s: Solution, points: seq<int>)
    requires Valid(t) && Tracked(t, s)
    requires t.votes[FindVote(t, s).value].penaltySum == UNSCORED
    requires |points| > 0
    requires forall i :: 0 <= i < |points| ==> points[i] >= 0
    ensures AddPenalties(t, s, points).Success?
    ensures var t' := AddPenalties(t, s, points).value;
      var k := FindVote(t, s).value;
      && Valid(t')
      && t'.votes.Keys == t.votes.Keys
      && t'.votes[k].penaltySum == SumOf(points)
      && t'.votes[k].solution == s
      && forall j :: j in t.votes && j != k ==> t'.votes[j] == t.votes[j]
  {
    var k := FindVote(t, s).value;
    var init := points[..|points| - 1];
    if |init| == 0 {
      assert AddPenalties(t, s, init) == Success(t);
    } else {
      PenaltyIsRunningSum(t, s, init);
      var t1 := AddPenalties(t, s, init).value;
      SumOfNonnegative(init);
      assert FindVote(t1, s) == Success(k) by {
        assert t1.votes[k].solution == s;
        assert forall j :: j in t1.votes && j < k ==> t1.votes[j].solution != s;
      }
    }
  }

  /** A fairness submission: the solution and its fairness. */
  datatype Submission = Submission(solution: Solution, fairness: int)

  /** Submits fairness values one after the other. */
  function AddFairnesses(t: Table, subs: seq<Submission>): Result<Table, TableError>
    requires Valid(t)
  {
    if |subs| == 0 then Success(t)
    else
      match AddFairnesses(t, subs[..|subs| - 1])
      case Failure(e) => Failure(e)
      case Success(t') =>
        AddFairnessToSolution(t', subs[|subs| - 1].solution, subs[|subs| - 1].fairness)
  }

  /**
    The best vote never gets worse: after any run of fairness submissions the
    best (penalty, fairness) is lexicographically at most the one before, and
    once a submission went through there is a best vote.
  */
  lemma {:induction false} BestNeverWorsens(t: Table, subs: seq<Submission>)
    requires Valid(t)
    requires AddFairnesses(t, subs).Success?
    ensures Valid(AddFairnesses(t, subs).value)
    ensures AddFairnesses(t, subs).value.votes.Keys == t.votes.Keys
    ensures |subs| > 0 ==> AddFairnesses(t, subs).value.best.Some?
    ensures t.best.Some? ==>
      && AddFairnesses(t, subs).value.best.Some?
      && AtLeastAsGood(AddFairnesses(t, subs).value.best.value, t.best.value)
  {
    if |subs| > 0 {
      var init := subs[..|subs| - 1];
      BestNeverWorsens(t, init);
    }
  }
}
