/** The serial explanation of a concurrent run keeps each thread's own order and real time, and nobody holds a lock for long. */
module LockedMapOrder {
  import opened Chains
  import opened ChainedMapSpec
  import opened LockedMap
  import opened LockedMapProofs
  import opened LockedMapTheorems
  import opened NodeStore

  // ---------- One thread's part in a run ----------

  /** The serial explanation so far, and where one thread stands. */
  datatype Seen<K, V> = Seen(who: seq<nat>, log: seq<(Op<K, V>, Answer<V>)>, pc: Pc<K, V>)

  ghost function See<K, V>(s: Sys<K, V>, t: nat): Seen<K, V>
    requires t < |s.threads|
  {
    Seen(s.who, s.log, s.threads[t])
  }

  ghost predicate Paired<K, V>(x: Seen<K, V>) {
    |x.who| == |x.log|
  }

  ghost predicate SameLog<K, V>(x: Seen<K, V>, y: Seen<K, V>) {
    y.who == x.who && y.log == x.log
  }

  /** One call, of thread `t`, has been logged. */
  ghost predicate LoggedOne<K, V>(x: Seen<K, V>, y: Seen<K, V>, t: nat) {
    y.who == x.who + [t] && |y.log| == |x.log| + 1 && y.log[..|x.log|] == x.log
  }

  /** An action of another thread leaves a thread where it is. Its own steps stay with its call, and the release logs it. */
  ghost predicate Moves<K, V>(x: Seen<K, V>, y: Seen<K, V>, a: Action<K, V>, t: nat) {
    if a.t != t then y.pc == x.pc && (SameLog(x, y) || LoggedOne(x, y, a.t))
    else if a.Start? then x.pc.Idle? && y.pc == Waiting(a.op) && SameLog(x, y)
    else if a.Acquire? then x.pc.Waiting? && y.pc == Enter(x.pc.op) && SameLog(x, y)
    else if x.pc.Release? then y.pc.Idle? && LoggedOne(x, y, t) && y.log[|x.log|].0 == x.pc.op
    else Critical(x.pc) && Critical(y.pc) && y.pc.op == x.pc.op && SameLog(x, y)
  }

  /** The place after one step in a critical section. */
  function NextPc<K(==), V>(cell: Store<K, V>, pc: Pc<K, V>): Pc<K, V>
    requires Critical(pc) && Runnable(cell, pc)
  {
    if pc.Count? then if pc.answer.Added? then Flag(pc.op, pc.answer) else Release(pc.op, pc.answer)
    else if pc.Flag? then Release(pc.op, pc.answer)
    else if pc.Release? then Idle
    else Executed(cell, pc).1
  }

  lemma AdvancedIs<K, V>(hash: Hash<K>, s: Sys<K, V>, t: nat)
    requires Shaped(s) && Enabled(hash, s, Advance(t))
    requires var b := Target(hash, s, s.threads[t].op); Runnable(s.cells[b], s.threads[t]) && Sound(s.snaps[b])
    ensures var (r, pc) := (Advanced(hash, s, t), s.threads[t]);
      && r.threads == s.threads[t := NextPc(s.cells[Target(hash, s, pc.op)], pc)]
      && r.model.len == s.model.len
      && r.log == (if pc.Release? then s.log + [(pc.op, pc.answer)] else s.log)
      && r.who == (if pc.Release? then s.who + [t] else s.who)
  {
  }

  lemma SameCall<K, V>(sn: Snap<K, V>, cell: Store<K, V>, pc: Pc<K, V>)
    requires Sound(sn) && Critical(pc) && !pc.Release? && !pc.op.Rehash? && LocalOk(sn, cell, pc) && Runnable(cell, pc)
    ensures Critical(NextPc(cell, pc)) && NextPc(cell, pc).op == pc.op
  {
    if InBucket(pc) { BucketStep(sn, cell, pc); }
  }

  lemma AdvanceMoves<K, V>(hash: Hash<K>, s: Sys<K, V>, u: nat, t: nat)
    requires LockInv(hash, s) && Enabled(hash, s, Advance(u)) && t < |s.threads|
    ensures var r := Do(hash, s, Advance(u)); |r.threads| == |s.threads| && Moves(See(s, t), See(r, t), Advance(u), t)
  {
    AdvanceReady(hash, s, u);
    AdvancedIs(hash, s, u);
    var pc := s.threads[u];
    var b := Target(hash, s, pc.op);
    if pc.Release? {
      assert LoggedOne(See(s, t), See(Do(hash, s, Advance(u)), t), u);
    } else {
      SameCall(s.snaps[b], s.cells[b], pc);
    }
  }

  lemma StepMoves<K, V>(hash: Hash<K>, s: Sys<K, V>, a: Action<K, V>, t: nat)
    requires LockInv(hash, s) && Enabled(hash, s, a) && t < |s.threads|
    ensures var r := Do(hash, s, a);
      |r.threads| == |s.threads| && Moves(See(s, t), See(r, t), a, t) && Paired(See(s, t)) && Paired(See(r, t))
  {
    if a.Advance? { AdvanceMoves(hash, s, a.t, t); }
  }

  // ---------- Order ----------

  /** The finished calls of thread `t`, in the order of the serial explanation. */
  function CallsOf<K, V>(t: nat, who: seq<nat>, log: seq<(Op<K, V>, Answer<V>)>): seq<Op<K, V>>
    requires |who| == |log|
  {
    if log == [] then []
    else
      var n := |log| - 1;
      CallsOf(t, who[..n], log[..n]) + if who[n] == t then [log[n].0] else []
  }

  function InFlight<K, V>(pc: Pc<K, V>): seq<Op<K, V>> {
    if pc.Idle? then [] else [pc.op]
  }

  ghost function Finished<K, V>(x: Seen<K, V>, t: nat): seq<Op<K, V>>
    requires Paired(x)
  {
    CallsOf(t, x.who, x.log)
  }

  /** The calls of thread `t` up to now: the finished ones, then the one in flight. */
  ghost function Past<K, V>(x: Seen<K, V>, t: nat): seq<Op<K, V>>
    requires Paired(x)
  {
    Finished(x, t) + InFlight(x.pc)
  }

  function StartedBy<K, V>(t: nat, a: Action<K, V>): seq<Op<K, V>> {
    if a.Start? && a.t == t then [a.op] else []
  }

  /** The calls that thread `t` starts, in its program's order. */
  function Started<K, V>(t: nat, acts: seq<Action<K, V>>): seq<Op<K, V>> {
    if acts == [] then [] else StartedBy(t, acts[0]) + Started(t, acts[1..])
  }

  /** From `x` to `y` thread `t` has started the calls `started`, and what is logged stays at its place. */
  ghost predicate Continues<K, V>(x: Seen<K, V>, y: Seen<K, V>, t: nat, started: seq<Op<K, V>>) {
    && Paired(x) && Paired(y)
    && Past(y, t) == Past(x, t) + started
    && x.log <= y.log && x.who <= y.who
  }

  lemma FinishedOne<K, V>(x: Seen<K, V>, y: Seen<K, V>, u: nat, t: nat)
    requires Paired(x) && Paired(y) && LoggedOne(x, y, u)
    ensures Finished(y, t) == Finished(x, t) + if u == t then [y.log[|x.log|].0] else []
  {
    assert y.who[..|x.who|] == x.who;
  }

  lemma MovesContinue<K, V>(x: Seen<K, V>, y: Seen<K, V>, a: Action<K, V>, t: nat)
    requires Paired(x) && Paired(y) && Moves(x, y, a, t)
    ensures Continues(x, y, t, StartedBy(t, a))
  {
    if a.t != t {
      if LoggedOne(x, y, a.t) { FinishedOne(x, y, a.t, t); }
    } else if a.Advance? && x.pc.Release? {
      FinishedOne(x, y, t, t);
    }
    assert Past(x, t) + [] == Past(x, t);
  }

  lemma ContinuesOn<K, V>(x: Seen<K, V>, y: Seen<K, V>, z: Seen<K, V>, t: nat, first: seq<Op<K, V>>, rest: seq<Op<K, V>>)
    requires Continues(x, y, t, first) && Continues(y, z, t, rest)
    ensures Continues(x, z, t, first + rest)
  {
    var past := Past(x, t);
    assert (past + first) + rest == past + (first + rest);
  }

  /** In every run the serial explanation lists each thread's calls in the order the thread makes them. */
  lemma {:induction false} ProgramOrder<K, V>(hash: Hash<K>, s: Sys<K, V>, acts: seq<Action<K, V>>, t: nat)
    requires LockInv(hash, s) && CanRun(hash, s, acts) && t < |s.threads|
    ensures var r := RunAll(hash, s, acts); t < |r.threads| && Continues(See(s, t), See(r, t), t, Started(t, acts))
    decreases |acts|
  {
    if acts == [] {
      assert Past(See(s, t), t) + [] == Past(See(s, t), t);
    } else {
      var m := Do(hash, s, acts[0]);
      StepMoves(hash, s, acts[0], t);
      MovesContinue(See(s, t), See(m, t), acts[0], t);
      ProgramOrder(hash, m, acts[1..], t);
      ContinuesOn(See(s, t), See(m, t), See(RunAll(hash, m, acts[1..]), t), t, StartedBy(t, acts[0]), Started(t, acts[1..]));
    }
  }

  lemma {:induction false} CallsConcat<K, V>(t: nat, who: seq<nat>, log: seq<(Op<K, V>, Answer<V>)>, n: nat)
    requires |who| == |log| && n <= |log|
    ensures CallsOf(t, who, log) == CallsOf(t, who[..n], log[..n]) + CallsOf(t, who[n..], log[n..])
    decreases |log|
  {
    if n == |log| {
      assert who[..n] == who && log[..n] == log;
    } else {
      var m := |log| - 1;
      CallsConcat(t, who[..m], log[..m], n);
      assert who[..m][..n] == who[..n] && log[..m][..n] == log[..n];
      assert who[n..][..m - n] == who[..m][n..] && log[n..][..m - n] == log[..m][n..];
    }
  }

  /** The calls logged since `x`, and the one in flight now, are the one that was in flight and those started since. */
  ghost predicate Behind<K, V>(x: Seen<K, V>, y: Seen<K, V>, t: nat, started: seq<Op<K, V>>) {
    var n := |x.log|;
    && Paired(x) && Paired(y) && n <= |y.log|
    && y.log[..n] == x.log && y.who[..n] == x.who
    && CallsOf(t, y.who[n..], y.log[n..]) + InFlight(y.pc) == InFlight(x.pc) + started
  }

  lemma ContinuesBehind<K, V>(x: Seen<K, V>, y: Seen<K, V>, t: nat, started: seq<Op<K, V>>)
    requires Continues(x, y, t, started)
    ensures Behind(x, y, t, started) && |Finished(y, t)| >= |Finished(x, t)|
  {
    var n := |x.log|;
    assert y.log[..n] == x.log && y.who[..n] == x.who;
    CallsConcat(t, y.who, y.log, n);
    var (before, after) := (Finished(x, t), CallsOf(t, y.who[n..], y.log[n..]));
    assert Finished(y, t) == before + after;
    Reassociates(before, after, InFlight(y.pc));
    Reassociates(before, InFlight(x.pc), started);
    Cancel(before, after + InFlight(y.pc), InFlight(x.pc) + started);
  }

  lemma Reassociates<T>(a: seq<T>, b: seq<T>, c: seq<T>)
    ensures (a + b) + c == a + (b + c)
  {
  }

  lemma Cancel<T>(a: seq<T>, b: seq<T>, c: seq<T>)
    requires a + b == a + c
    ensures b == c
  {
    assert b == (a + b)[|a|..] && c == (a + c)[|a|..];
  }

  /** Cut a run anywhere: the calls finished before the cut keep their places in the serial explanation, and behind them
      come, for each thread, the call that was in flight and then the calls started after the cut. So a call that ends
      before another one starts precedes it. */
  lemma RealTime<K, V>(hash: Hash<K>, s: Sys<K, V>, acts: seq<Action<K, V>>, t: nat)
    requires LockInv(hash, s) && CanRun(hash, s, acts) && t < |s.threads|
    ensures var r := RunAll(hash, s, acts); t < |r.threads| && Behind(See(s, t), See(r, t), t, Started(t, acts))
  {
    ProgramOrder(hash, s, acts, t);
    ContinuesBehind(See(s, t), See(RunAll(hash, s, acts), t), t, Started(t, acts));
  }

  // ---------- Progress ----------

  /** How many more steps of its own a thread can make before it has released the lock of a bucket with `n` nodes. */
  function Fuel<K, V>(n: nat, pc: Pc<K, V>): nat {
    match pc
    case Idle => 0
    case Waiting(_) => 0
    case Enter(_) => n + 11
    case Walk(_, _, _, pos) => if pos < n then n - pos + 10 else 10
    case Append(_, _, _, stage) => if stage < 5 then 9 - stage else 4
    case Assign(_, _, _) => 2
    case Unlink(_, _, _, stage, _) => if stage < 4 then 8 - stage else 4
    case Count(_, _) => 3
    case Flag(_, _) => 2
    case Release(_, _) => 1
  }

  lemma NextFuel<K, V>(n: nat, cell: Store<K, V>, pc: Pc<K, V>)
    requires Critical(pc) && Runnable(cell, pc) && (pc.Walk? ==> pc.pos < n)
    ensures Fuel(n, NextPc(cell, pc)) < Fuel(n, pc) <= n + 11
  {
  }

  lemma WalkInside<K, V>(sn: Snap<K, V>, cell: Store<K, V>, pc: Pc<K, V>)
    requires Sound(sn) && Critical(pc) && !pc.op.Rehash? && LocalOk(sn, cell, pc)
    ensures pc.Walk? ==> pc.pos < |sn.store.nodes|
  {
    FreeInRange(sn);
  }

  lemma NodesHeld<K, V>(hash: Hash<K>, s: Sys<K, V>, b: nat)
    requires LockInv(hash, s) && b < |s.cells|
    ensures |s.snaps[b].store.nodes| == s.model.len
  {
    assert CellOk(hash, s, b);
  }

  /** Every step of a thread that holds a lock brings it nearer to the release, whatever the others have done. */
  lemma FuelDrops<K, V>(hash: Hash<K>, s: Sys<K, V>, t: nat)
    requires LockInv(hash, s) && Enabled(hash, s, Advance(t))
    ensures var r := Do(hash, s, Advance(t));
      t < |r.threads| && Fuel(s.model.len, r.threads[t]) < Fuel(s.model.len, s.threads[t]) <= s.model.len + 11
  {
    AdvanceReady(hash, s, t);
    var b := Target(hash, s, s.threads[t].op);
    NodesHeld(hash, s, b);
    WalkInside(s.snaps[b], s.cells[b], s.threads[t]);
    AdvancedIs(hash, s, t);
    NextFuel(s.model.len, s.cells[b], s.threads[t]);
  }

  lemma LenKept<K, V>(hash: Hash<K>, s: Sys<K, V>, a: Action<K, V>)
    requires LockInv(hash, s) && Enabled(hash, s, a)
    ensures Do(hash, s, a).model.len == s.model.len
  {
    if a.Advance? {
      AdvanceReady(hash, s, a.t);
      AdvancedIs(hash, s, a.t);
    }
  }

  /** A thread that holds a lock is never kept from its next step. */
  lemma NeverBlocked<K, V>(hash: Hash<K>, s: Sys<K, V>, t: nat)
    requires LockInv(hash, s) && t < |s.threads| && Critical(s.threads[t])
    ensures Enabled(hash, s, Advance(t))
  {
    assert ThreadOk(hash, s, t);
  }

  function Turns<K, V>(t: nat, acts: seq<Action<K, V>>): nat {
    if acts == [] then 0 else (if acts[0].t == t then 1 else 0) + Turns(t, acts[1..])
  }

  /** A thread that holds a lock has one call more to its name after `y`, or still holds it with less fuel. */
  ghost predicate Nearer<K, V>(x: Seen<K, V>, y: Seen<K, V>, t: nat, n: nat, own: nat)
    requires Paired(x) && Paired(y)
  {
    || |Finished(y, t)| > |Finished(x, t)|
    || (Critical(y.pc) && |Finished(y, t)| == |Finished(x, t)| && Fuel(n, y.pc) + own <= Fuel(n, x.pc))
  }

  lemma MovesNearer<K, V>(x: Seen<K, V>, y: Seen<K, V>, a: Action<K, V>, t: nat, n: nat)
    requires Paired(x) && Paired(y) && Moves(x, y, a, t) && Critical(x.pc)
    requires a.t == t ==> Fuel(n, y.pc) < Fuel(n, x.pc)
    ensures Nearer(x, y, t, n, if a.t == t then 1 else 0)
  {
    if a.t != t {
      if LoggedOne(x, y, a.t) { FinishedOne(x, y, a.t, t); }
    } else if x.pc.Release? {
      FinishedOne(x, y, t, t);
    }
  }

  lemma OneTurn<K, V>(hash: Hash<K>, s: Sys<K, V>, a: Action<K, V>, t: nat)
    requires LockInv(hash, s) && Enabled(hash, s, a) && t < |s.threads| && Critical(s.threads[t])
    ensures var r := Do(hash, s, a);
      && t < |r.threads| && r.model.len == s.model.len && Paired(See(s, t)) && Paired(See(r, t))
      && Nearer(See(s, t), See(r, t), t, s.model.len, if a.t == t then 1 else 0)
  {
    StepMoves(hash, s, a, t);
    LenKept(hash, s, a);
    if a.t == t { FuelDrops(hash, s, t); }
    MovesNearer(See(s, t), See(Do(hash, s, a), t), a, t, s.model.len);
  }

  /** A thread that holds a lock releases it, and its call is logged, after at most bucket length plus eleven steps of its
      own, however the other threads are scheduled in between. */
  lemma {:induction false} Progress<K, V>(hash: Hash<K>, s: Sys<K, V>, acts: seq<Action<K, V>>, t: nat)
    requires LockInv(hash, s) && CanRun(hash, s, acts) && t < |s.threads| && Critical(s.threads[t])
    ensures var r := RunAll(hash, s, acts);
      && t < |r.threads| && Paired(See(s, t)) && Paired(See(r, t))
      && Nearer(See(s, t), See(r, t), t, s.model.len, Turns(t, acts))
    decreases |acts|
  {
    if acts != [] {
      var m := Do(hash, s, acts[0]);
      OneTurn(hash, s, acts[0], t);
      if |Finished(See(m, t), t)| > |Finished(See(s, t), t)| {
        StaysFinished(hash, m, acts[1..], t);
      } else {
        Progress(hash, m, acts[1..], t);
      }
    }
  }

  lemma StaysFinished<K, V>(hash: Hash<K>, s: Sys<K, V>, acts: seq<Action<K, V>>, t: nat)
    requires LockInv(hash, s) && CanRun(hash, s, acts) && t < |s.threads|
    ensures var r := RunAll(hash, s, acts);
      t < |r.threads| && Paired(See(s, t)) && Paired(See(r, t)) && |Finished(See(r, t), t)| >= |Finished(See(s, t), t)|
  {
    ProgramOrder(hash, s, acts, t);
    ContinuesBehind(See(s, t), See(RunAll(hash, s, acts), t), t, Started(t, acts));
  }

  /** The bound itself: as many steps of its own as its fuel, at most bucket length plus eleven, finish the call. */
  lemma BoundedHold<K, V>(hash: Hash<K>, s: Sys<K, V>, acts: seq<Action<K, V>>, t: nat)
    requires LockInv(hash, s) && CanRun(hash, s, acts) && t < |s.threads| && Critical(s.threads[t])
    requires Turns(t, acts) >= s.model.len + 11
    ensures var r := RunAll(hash, s, acts);
      t < |r.threads| && Paired(See(s, t)) && Paired(See(r, t)) && |Finished(See(r, t), t)| > |Finished(See(s, t), t)|
  {
    NeverBlocked(hash, s, t);
    FuelDrops(hash, s, t);
    Progress(hash, s, acts, t);
    SomeFuel(s.model.len, RunAll(hash, s, acts).threads[t]);
  }

  lemma SomeFuel<K, V>(n: nat, pc: Pc<K, V>)
    ensures Critical(pc) ==> Fuel(n, pc) > 0
  {
  }
}
