/** The two parallel passes of the naive intersection search: count the pairs, then let every task claim a slot and fill it. */
module PairCollection {
  import opened Counting

  /** One cell of the two-dimensional kernel. */
  datatype Task = Task(row: int, col: int)

  ghost predicate InRange(n: nat, t: Task) {
    0 <= t.row < n && 0 <= t.col < n
  }

  ghost predicate Qualifies(n: nat, test: (int, int) -> bool, t: Task) {
    InRange(n, t) && t.row > t.col && test(t.row, t.col)
  }

  ghost function AllTasks(n: nat): (s: set<Task>)
    ensures forall t :: t in s <==> InRange(n, t)
  {
    set row, col | 0 <= row < n && 0 <= col < n :: Task(row, col)
  }

  /** The pairs to be reported. */
  ghost function Wanted(n: nat, test: (int, int) -> bool): (s: set<Task>)
    ensures forall t :: t in s <==> Qualifies(n, test, t)
  {
    set t | t in AllTasks(n) && Qualifies(n, test, t)
  }

  // ---------- The counting pass ----------

  /** The reduction after the tasks of `order` have run, in that order. */
  function Tally(test: (int, int) -> bool, order: seq<Task>): nat {
    if order == [] then 0
    else
      var t := order[|order| - 1];
      Tally(test, order[..|order| - 1]) + if t.row > t.col && test(t.row, t.col) then 1 else 0
  }

  ghost function Kept(n: nat, test: (int, int) -> bool, order: seq<Task>): set<Task> {
    set i | 0 <= i < |order| && Qualifies(n, test, order[i]) :: order[i]
  }

  lemma {:induction false} TallyIsKept(n: nat, test: (int, int) -> bool, order: seq<Task>)
    requires AllDistinct(order) && forall i :: 0 <= i < |order| ==> InRange(n, order[i])
    ensures Tally(test, order) == |Kept(n, test, order)|
  {
    if order != [] {
      var (rest, t) := (order[..|order| - 1], order[|order| - 1]);
      TallyIsKept(n, test, rest);
      assert forall i :: 0 <= i < |rest| ==> rest[i] == order[i];
      KeptSnoc(n, test, rest, t);
      assert order == rest + [t];
    }
  }

  lemma KeptSnoc(n: nat, test: (int, int) -> bool, rest: seq<Task>, t: Task)
    requires t !in rest
    ensures Kept(n, test, rest + [t]) == if Qualifies(n, test, t) then Kept(n, test, rest) + {t} else Kept(n, test, rest)
    ensures t !in Kept(n, test, rest)
  {
    var order := rest + [t];
    forall x | x in Kept(n, test, rest) ensures x in Kept(n, test, order) {
      var i :| 0 <= i < |rest| && Qualifies(n, test, rest[i]) && rest[i] == x;
      assert order[i] == x;
    }
    if Qualifies(n, test, t) {
      assert order[|rest|] == t;
    }
    forall x | x in Kept(n, test, order) ensures x == t || x in Kept(n, test, rest) {
      var i :| 0 <= i < |order| && Qualifies(n, test, order[i]) && order[i] == x;
      assert i < |rest| ==> rest[i] == x;
    }
  }

  /** In whatever order every task runs once, the reduction is the number of pairs to report. */
  lemma CountIsExact(n: nat, test: (int, int) -> bool, order: seq<Task>)
    requires AllDistinct(order) && Elements(order) == AllTasks(n)
    ensures Tally(test, order) == |Wanted(n, test)|
  {
    assert forall i :: 0 <= i < |order| ==> order[i] in Elements(order);
    TallyIsKept(n, test, order);
    forall t | t in Wanted(n, test) ensures t in Kept(n, test, order) {
      assert t in Elements(order);
      var i :| 0 <= i < |order| && order[i] == t;
    }
    assert Kept(n, test, order) == Wanted(n, test);
  }

  // ---------- The filling pass ----------

  datatype Stage = Ready | Claimed(index: int) | RowWritten(index: int) | Finished

  /** `claims` is a history: the tasks in the order of their atomic additions. `fault` records a write outside the array. */
  datatype Sys = Sys(counter: int, out: seq<int>, stage: map<Task, Stage>, claims: seq<Task>, fault: bool)

  ghost function Start(n: nat, out: seq<int>): Sys {
    Sys(0, out, map t | t in AllTasks(n) :: Ready, [], false)
  }

  function Written(s: Sys, i: int, v: int): Sys {
    if 0 <= i < |s.out| then s.(out := s.out[i := v]) else s.(fault := true)
  }

  /** The next step of one task: an atomic addition, or one of its two writes. */
  function Step(test: (int, int) -> bool, s: Sys, t: Task): Sys {
    if t !in s.stage || s.stage[t].Finished? then s
    else if s.stage[t].Ready? then
      if t.row > t.col && test(t.row, t.col)
      then s.(counter := s.counter + 2, stage := s.stage[t := Claimed(s.counter)], claims := s.claims + [t])
      else s.(stage := s.stage[t := Finished])
    else if s.stage[t].Claimed? then
      Written(s, s.stage[t].index, t.row).(stage := s.stage[t := RowWritten(s.stage[t].index)])
    else
      Written(s, s.stage[t].index + 1, t.col).(stage := s.stage[t := Finished])
  }

  function Run(test: (int, int) -> bool, s: Sys, schedule: seq<Task>): Sys {
    if schedule == [] then s else Step(test, Run(test, s, schedule[..|schedule| - 1]), schedule[|schedule| - 1])
  }

  /** The place of a task among the claims. */
  ghost predicate ClaimedAt(s: Sys, t: Task, j: int) {
    0 <= j < |s.claims| && s.claims[j] == t
  }

  /** What is known about one task, by its stage. */
  ghost predicate TaskOk(n: nat, test: (int, int) -> bool, s: Sys, t: Task)
    requires t in s.stage
  {
    match s.stage[t]
    case Ready => t !in s.claims
    case Claimed(index) => exists j :: ClaimedAt(s, t, j) && index == 2 * j
    case RowWritten(index) => exists j :: ClaimedAt(s, t, j) && index == 2 * j && index < |s.out| && s.out[index] == t.row
    case Finished => Qualifies(n, test, t) ==> exists j :: ClaimedAt(s, t, j) && Filled(s, t, 2 * j)
  }

  ghost predicate Filled(s: Sys, t: Task, i: int) {
    0 <= i < |s.out| - 1 && s.out[i] == t.row && s.out[i + 1] == t.col
  }

  ghost predicate Inv(n: nat, test: (int, int) -> bool, s: Sys) {
    && s.stage.Keys == AllTasks(n)
    && |s.out| == 2 * |Wanted(n, test)|
    && s.counter == 2 * |s.claims|
    && !s.fault
    && AllDistinct(s.claims)
    && (forall j :: 0 <= j < |s.claims| ==> Qualifies(n, test, s.claims[j]))
    && forall t <- s.stage :: TaskOk(n, test, s, t)
  }

  /** No more slots are claimed than were counted. */
  lemma ClaimsFit(n: nat, test: (int, int) -> bool, claims: seq<Task>)
    requires AllDistinct(claims) && forall j :: 0 <= j < |claims| ==> Qualifies(n, test, claims[j])
    ensures |claims| <= |Wanted(n, test)|
  {
    DistinctSize(claims);
    SubsetSize(Elements(claims), Wanted(n, test));
  }

  /** A claimed slot lies in the array. */
  lemma SlotFits(n: nat, test: (int, int) -> bool, s: Sys, t: Task, j: int)
    requires Inv(n, test, s) && ClaimedAt(s, t, j)
    ensures 0 <= 2 * j && 2 * j + 1 < |s.out|
  {
    ClaimsFit(n, test, s.claims);
  }

  /** From `s` to `r` the slot of task `u` is untouched and its claim is kept. */
  ghost predicate Spares(s: Sys, r: Sys, u: Task) {
    && u in s.stage && u in r.stage && r.stage[u] == s.stage[u]
    && |r.out| == |s.out|
    && (u in r.claims ==> u in s.claims)
    && forall j :: ClaimedAt(s, u, j) ==> ClaimedAt(r, u, j) && SameSlot(s, r, 2 * j)
  }

  ghost predicate SameSlot(s: Sys, r: Sys, i: int) {
    && |r.out| == |s.out|
    && (0 <= i < |s.out| ==> r.out[i] == s.out[i])
    && (0 <= i + 1 < |s.out| ==> r.out[i + 1] == s.out[i + 1])
  }

  lemma SparedOk(n: nat, test: (int, int) -> bool, s: Sys, r: Sys, u: Task)
    requires Spares(s, r, u) && TaskOk(n, test, s, u)
    ensures TaskOk(n, test, r, u)
  {
    match s.stage[u]
    case Ready =>
    case Claimed(index) =>
      var j :| ClaimedAt(s, u, j) && index == 2 * j;
      assert ClaimedAt(r, u, j);
    case RowWritten(index) =>
      var j :| ClaimedAt(s, u, j) && index == 2 * j && index < |s.out| && s.out[index] == u.row;
      assert ClaimedAt(r, u, j) && SameSlot(s, r, 2 * j);
    case Finished =>
      if Qualifies(n, test, u) {
        var j :| ClaimedAt(s, u, j) && Filled(s, u, 2 * j);
        assert ClaimedAt(r, u, j) && SameSlot(s, r, 2 * j);
        assert Filled(r, u, 2 * j);
      }
  }

  /** A task's first step: it claims the next free slot, or has nothing to report. */
  lemma ClaimKeeps(n: nat, test: (int, int) -> bool, s: Sys, t: Task)
    requires Inv(n, test, s) && t in s.stage && s.stage[t].Ready?
    ensures Inv(n, test, Step(test, s, t))
  {
    var r := Step(test, s, t);
    assert TaskOk(n, test, s, t);
    if Qualifies(n, test, t) {
      assert ClaimedAt(r, t, |s.claims|);
    }
    forall u <- r.stage | u != t ensures TaskOk(n, test, r, u) {
      assert forall j :: ClaimedAt(s, u, j) ==> ClaimedAt(r, u, j);
      SparedOk(n, test, s, r, u);
    }
  }

  /** A write into the slot of one task leaves the slots of the others alone. */
  lemma WriteSpares(s: Sys, r: Sys, t: Task, j: int, i: int, v: int, u: Task)
    requires AllDistinct(s.claims) && ClaimedAt(s, t, j) && 2 * j <= i <= 2 * j + 1 < |s.out| && u != t
    requires r.out == s.out[i := v] && r.claims == s.claims
    requires u in s.stage && u in r.stage && r.stage[u] == s.stage[u]
    ensures Spares(s, r, u)
  {
    forall k | ClaimedAt(s, u, k) ensures ClaimedAt(r, u, k) && SameSlot(s, r, 2 * k) {
      assert k != j;
    }
  }

  lemma RowKeeps(n: nat, test: (int, int) -> bool, s: Sys, t: Task)
    requires Inv(n, test, s) && t in s.stage && s.stage[t].Claimed?
    ensures Inv(n, test, Step(test, s, t))
  {
    var r := Step(test, s, t);
    assert TaskOk(n, test, s, t);
    var j :| ClaimedAt(s, t, j) && s.stage[t].index == 2 * j;
    SlotFits(n, test, s, t, j);
    assert ClaimedAt(r, t, j);
    forall u <- r.stage | u != t ensures TaskOk(n, test, r, u) {
      WriteSpares(s, r, t, j, 2 * j, t.row, u);
      SparedOk(n, test, s, r, u);
    }
  }

  lemma ColumnKeeps(n: nat, test: (int, int) -> bool, s: Sys, t: Task)
    requires Inv(n, test, s) && t in s.stage && s.stage[t].RowWritten?
    ensures Inv(n, test, Step(test, s, t))
  {
    var r := Step(test, s, t);
    assert TaskOk(n, test, s, t);
    var j :| ClaimedAt(s, t, j) && s.stage[t].index == 2 * j && s.out[2 * j] == t.row;
    SlotFits(n, test, s, t, j);
    assert ClaimedAt(r, t, j) && Filled(r, t, 2 * j);
    forall u <- r.stage | u != t ensures TaskOk(n, test, r, u) {
      WriteSpares(s, r, t, j, 2 * j + 1, t.col, u);
      SparedOk(n, test, s, r, u);
    }
  }

  lemma StepKeeps(n: nat, test: (int, int) -> bool, s: Sys, t: Task)
    requires Inv(n, test, s)
    ensures Inv(n, test, Step(test, s, t))
  {
    if t in s.stage {
      match s.stage[t]
      case Ready => ClaimKeeps(n, test, s, t);
      case Claimed(_) => RowKeeps(n, test, s, t);
      case RowWritten(_) => ColumnKeeps(n, test, s, t);
      case Finished =>
    }
  }

  /** In every interleaving no write leaves the array and every task has a slot of its own. */
  lemma {:induction false} RunKeeps(n: nat, test: (int, int) -> bool, out: seq<int>, schedule: seq<Task>)
    requires |out| == 2 * |Wanted(n, test)|
    ensures Inv(n, test, Run(test, Start(n, out), schedule))
  {
    if schedule == [] {
      assert Start(n, out).stage.Keys == AllTasks(n);
    } else {
      RunKeeps(n, test, out, schedule[..|schedule| - 1]);
      StepKeeps(n, test, Run(test, Start(n, out), schedule[..|schedule| - 1]), schedule[|schedule| - 1]);
    }
  }

  // ---------- Completion ----------

  function Rank(stage: Stage): nat {
    match stage
    case Ready => 0
    case Claimed(_) => 1
    case RowWritten(_) => 2
    case Finished => 3
  }

  function Turns(schedule: seq<Task>, t: Task): nat {
    if schedule == [] then 0 else Turns(schedule[..|schedule| - 1], t) + if schedule[|schedule| - 1] == t then 1 else 0
  }

  /** Every turn brings a task one stage further, so nothing waits for anything. */
  lemma {:induction false} TurnsAdvance(n: nat, test: (int, int) -> bool, out: seq<int>, schedule: seq<Task>, t: Task)
    requires InRange(n, t)
    ensures var s := Run(test, Start(n, out), schedule); t in s.stage && (Rank(s.stage[t]) >= 3 || Rank(s.stage[t]) >= Turns(schedule, t))
  {
    if schedule != [] {
      TurnsAdvance(n, test, out, schedule[..|schedule| - 1], t);
    }
  }

  /** The copy of the claimed slots into the list of pairs. */
  method Collect(out: seq<int>, count: nat) returns (pairs: seq<Task>)
    requires |out| == 2 * count
    ensures |pairs| == count && forall j :: 0 <= j < count ==> pairs[j] == Task(out[2 * j], out[2 * j + 1])
  {
    pairs := [];
    var i := 0;
    while i < count * 2
      invariant 0 <= i <= count * 2 && i == 2 * |pairs|
      invariant forall j :: 0 <= j < |pairs| ==> pairs[j] == Task(out[2 * j], out[2 * j + 1])
    {
      pairs := pairs + [Task(out[i], out[i + 1])];
      i := i + 2;
    }
  }

  /** In whatever order the first pass counts and however the second pass is interleaved, once every task has had its
      three turns the array lists every pair to report exactly once. */
  lemma PairsAreExact(n: nat, test: (int, int) -> bool, order: seq<Task>, out: seq<int>, schedule: seq<Task>, pairs: seq<Task>)
    requires AllDistinct(order) && Elements(order) == AllTasks(n) && |out| == 2 * Tally(test, order)
    requires forall t :: InRange(n, t) ==> Turns(schedule, t) >= 3
    requires var s := Run(test, Start(n, out), schedule);
      && |s.out| == 2 * |pairs|
      && forall j :: 0 <= j < |pairs| ==> pairs[j] == Task(s.out[2 * j], s.out[2 * j + 1])
    ensures AllDistinct(pairs) && Elements(pairs) == Wanted(n, test)
  {
    var s := Run(test, Start(n, out), schedule);
    CountIsExact(n, test, order);
    RunKeeps(n, test, out, schedule);
    forall t | InRange(n, t) ensures s.stage[t].Finished? {
      TurnsAdvance(n, test, out, schedule, t);
    }
    forall t | t in Wanted(n, test) ensures t in Elements(s.claims) {
      assert TaskOk(n, test, s, t);
      var j :| ClaimedAt(s, t, j) && Filled(s, t, 2 * j);
    }
    assert Elements(s.claims) == Wanted(n, test);
    DistinctSize(s.claims);
    forall j | 0 <= j < |pairs| ensures pairs[j] == s.claims[j] {
      assert TaskOk(n, test, s, s.claims[j]);
      var i :| ClaimedAt(s, s.claims[j], i) && Filled(s, s.claims[j], 2 * i);
      assert i == j;
    }
    assert pairs == s.claims;
  }

  /** Under a symmetric test the reported pairs name every two different triangles that pass it exactly once, in one
      order or the other, and no triangle with itself. */
  lemma UnorderedOnce(n: nat, test: (int, int) -> bool, a: int, b: int)
    requires 0 <= a < n && 0 <= b < n && forall i, j :: test(i, j) == test(j, i)
    ensures Task(a, a) !in Wanted(n, test)
    ensures a != b && test(a, b) <==> (Task(a, b) in Wanted(n, test)) != (Task(b, a) in Wanted(n, test))
  {
  }
}
