/** The theorems about every interleaving of the locked operations. */
module LockedMapTheorems {
  import opened Chains
  import opened ChainedMapSpec
  import opened NodeStore
  import opened LockedMap
  import opened LockedMapProofs
  import Theorems = ChainedMapTheorems
  import opened Wrappers

  // ---------- The invariant ----------

  function Sum(xs: seq<int>): int {
    if xs == [] then 0 else Sum(xs[..|xs| - 1]) + xs[|xs| - 1]
  }

  /** What a finished but not yet released operation has already added to `m_size`. */
  ghost function Owed<K, V>(s: Sys<K, V>, b: nat): int
    requires b < |s.locks|
  {
    if s.locks[b].Some? && s.locks[b].value < |s.threads|
    then
      var pc := s.threads[s.locks[b].value];
      if pc.Flag? || pc.Release? then Delta(pc.answer) else 0
    else 0
  }

  ghost function AllOwed<K, V>(s: Sys<K, V>): seq<int> {
    seq(|s.locks|, b requires 0 <= b < |s.locks| => Owed(s, b))
  }

  /** An insertion that filled bucket `b` has set the flag and not yet released the lock. */
  ghost predicate Flagged<K, V>(s: Sys<K, V>, b: nat)
    requires b < |s.locks| && b < |s.model.chains|
  {
    && s.locks[b].Some? && s.locks[b].value < |s.threads|
    && var pc := s.threads[s.locks[b].value];
       && pc.Release? && pc.answer.Added? && !pc.op.Rehash?
       && |Called(s.model.chains[b], s.model.len, pc.op).0| == s.model.len
  }

  ghost predicate AnyFlagged<K, V>(s: Sys<K, V>)
    requires Shaped(s)
  {
    exists b :: 0 <= b < |s.locks| && Flagged(s, b)
  }

  /** An unlocked bucket is well formed and holds what the finished calls have left in it; a locked one is
      where its holder's place in the code says. */
  ghost predicate CellOk<K, V>(hash: Hash<K>, s: Sys<K, V>, b: nat)
    requires Shaped(s) && b < |s.cells|
  {
    && Sound(s.snaps[b])
    && |s.snaps[b].store.nodes| == s.model.len
    && Held(s.snaps[b]) == s.model.chains[b]
    && match s.locks[b]
       case None => s.cells[b] == s.snaps[b].store
       case Some(t) =>
         && t < |s.threads| && Critical(s.threads[t]) && !s.threads[t].op.Rehash?
         && Target(hash, s, s.threads[t].op) == b
         && LocalOk(s.snaps[b], s.cells[b], s.threads[t])
  }

  ghost predicate ThreadOk<K, V>(hash: Hash<K>, s: Sys<K, V>, t: nat)
    requires Shaped(s) && t < |s.threads|
  {
    var pc := s.threads[t];
    !pc.Idle? ==> !pc.op.Rehash? && (Critical(pc) ==> s.locks[Target(hash, s, pc.op)] == Some(t))
  }

  ghost predicate Counts<K, V>(s: Sys<K, V>)
    requires Shaped(s)
  {
    && s.size == s.model.size + Sum(AllOwed(s))
    && s.fill == (s.model.fill || AnyFlagged(s))
  }

  ghost predicate LockInv<K, V>(hash: Hash<K>, s: Sys<K, V>) {
    && Shaped(s)
    && (forall b :: 0 <= b < |s.cells| ==> CellOk(hash, s, b))
    && (forall t :: 0 <= t < |s.threads| ==> ThreadOk(hash, s, t))
    && Counts(s)
  }

  lemma {:induction false} SumUpdate(xs: seq<int>, i: nat, x: int)
    requires i < |xs|
    ensures Sum(xs[i := x]) == Sum(xs) - xs[i] + x
  {
    var n := |xs| - 1;
    if i < n {
      assert xs[i := x][..n] == xs[..n][i := x];
      SumUpdate(xs[..n], i, x);
    } else {
      assert xs[i := x][..n] == xs[..n];
    }
  }

  lemma {:induction false} SumZero(xs: seq<int>)
    requires forall i :: 0 <= i < |xs| ==> xs[i] == 0
    ensures Sum(xs) == 0
  {
    if xs != [] { SumZero(xs[..|xs| - 1]); }
  }

  // ---------- Each step keeps it ----------

  /** Only bucket `b` and thread `t`, which holds its lock before or after, differ between `s` and `r`. */
  ghost predicate Local<K, V>(s: Sys<K, V>, r: Sys<K, V>, b: nat, t: nat)
    requires Shaped(s) && Shaped(r)
  {
    && |r.cells| == |s.cells| && |r.threads| == |s.threads| && b < |s.cells| && t < |s.threads|
    && r.model.len == s.model.len
    && (s.locks[b] == None || s.locks[b] == Some(t)) && (r.locks[b] == None || r.locks[b] == Some(t))
    && (forall i :: 0 <= i < |s.cells| && i != b ==>
         r.cells[i] == s.cells[i] && r.locks[i] == s.locks[i] && r.snaps[i] == s.snaps[i] && r.model.chains[i] == s.model.chains[i])
    && (forall u :: 0 <= u < |s.threads| && u != t ==> r.threads[u] == s.threads[u])
  }

  ghost predicate WorksOn<K, V>(hash: Hash<K>, s: Sys<K, V>, t: nat, b: nat)
    requires Shaped(s) && t < |s.threads|
  {
    Critical(s.threads[t]) ==> !s.threads[t].op.Rehash? && Target(hash, s, s.threads[t].op) == b
  }

  lemma OtherCells<K, V>(hash: Hash<K>, s: Sys<K, V>, r: Sys<K, V>, b: nat, t: nat, i: nat)
    requires LockInv(hash, s) && Shaped(r) && Local(s, r, b, t) && i < |s.cells| && i != b
    requires WorksOn(hash, s, t, b)
    ensures CellOk(hash, r, i) && Owed(r, i) == Owed(s, i) && Flagged(r, i) == Flagged(s, i)
  {
    assert CellOk(hash, s, i);
  }

  lemma OtherThreads<K, V>(hash: Hash<K>, s: Sys<K, V>, r: Sys<K, V>, b: nat, t: nat, u: nat)
    requires LockInv(hash, s) && Shaped(r) && Local(s, r, b, t) && u < |s.threads| && u != t
    ensures ThreadOk(hash, r, u)
  {
    assert ThreadOk(hash, s, u);
  }

  /** A step that is local to bucket `b` and thread `t` keeps the invariant if it does so there. */
  lemma LocalStep<K, V>(hash: Hash<K>, s: Sys<K, V>, r: Sys<K, V>, b: nat, t: nat)
    requires LockInv(hash, s) && Shaped(r) && Local(s, r, b, t)
    requires WorksOn(hash, s, t, b)
    requires CellOk(hash, r, b) && ThreadOk(hash, r, t)
    requires r.size - s.size == (r.model.size - s.model.size) + Owed(r, b) - Owed(s, b)
    requires r.fill == (s.fill || Flagged(r, b) || r.model.fill)
    requires s.model.fill ==> r.model.fill
    requires Flagged(s, b) ==> Flagged(r, b) || r.model.fill
    ensures LockInv(hash, r)
  {
    forall i | 0 <= i < |s.cells| ensures CellOk(hash, r, i) {
      if i != b { OtherCells(hash, s, r, b, t, i); }
    }
    forall u | 0 <= u < |s.threads| ensures ThreadOk(hash, r, u) {
      if u != t { OtherThreads(hash, s, r, b, t, u); }
    }
    CountsKept(hash, s, r, b, t);
  }

  lemma CountsKept<K, V>(hash: Hash<K>, s: Sys<K, V>, r: Sys<K, V>, b: nat, t: nat)
    requires LockInv(hash, s) && Shaped(r) && Local(s, r, b, t)
    requires WorksOn(hash, s, t, b)
    requires r.size - s.size == (r.model.size - s.model.size) + Owed(r, b) - Owed(s, b)
    requires r.fill == (s.fill || Flagged(r, b) || r.model.fill)
    requires s.model.fill ==> r.model.fill
    requires Flagged(s, b) ==> Flagged(r, b) || r.model.fill
    ensures Counts(r)
  {
    forall i | 0 <= i < |s.cells| && i != b ensures Owed(r, i) == Owed(s, i) && Flagged(r, i) == Flagged(s, i) {
      OtherCells(hash, s, r, b, t, i);
    }
    assert AllOwed(r) == AllOwed(s)[b := Owed(r, b)];
    SumUpdate(AllOwed(s), b, Owed(r, b));
    if AnyFlagged(s) {
      var i :| 0 <= i < |s.locks| && Flagged(s, i);
      assert Flagged(r, i) || r.model.fill;
    }
    if AnyFlagged(r) {
      var i :| 0 <= i < |r.locks| && Flagged(r, i);
      assert i == b || Flagged(s, i);
    }
  }

  lemma StartKeeps<K, V>(hash: Hash<K>, s: Sys<K, V>, t: nat, op: Op<K, V>)
    requires LockInv(hash, s) && Enabled(hash, s, Start(t, op))
    ensures LockInv(hash, s.(threads := s.threads[t := Waiting(op)]))
  {
    var r := s.(threads := s.threads[t := Waiting(op)]);
    forall b | 0 <= b < |s.cells| ensures CellOk(hash, r, b) && Owed(r, b) == Owed(s, b) && Flagged(r, b) == Flagged(s, b) {
      assert CellOk(hash, s, b);
      assert s.locks[b].Some? ==> s.locks[b].value != t;
    }
    assert AllOwed(r) == AllOwed(s);
    assert AnyFlagged(r) == AnyFlagged(s);
    forall u | 0 <= u < |s.threads| ensures ThreadOk(hash, r, u) {
      assert ThreadOk(hash, s, u);
    }
  }

  lemma AcquireKeeps<K, V>(hash: Hash<K>, s: Sys<K, V>, t: nat)
    requires LockInv(hash, s) && Enabled(hash, s, Acquire(t))
    ensures LockInv(hash, Acquired(hash, s, t))
  {
    var b := Target(hash, s, s.threads[t].op);
    assert CellOk(hash, s, b);
    LocalStep(hash, s, Acquired(hash, s, t), b, t);
  }

  /** Safe to take the next step: the lock is held and every access stays inside the bucket. */
  lemma AdvanceReady<K, V>(hash: Hash<K>, s: Sys<K, V>, t: nat)
    requires LockInv(hash, s) && Enabled(hash, s, Advance(t))
    ensures var b := Target(hash, s, s.threads[t].op);
            && s.locks[b] == Some(t)
            && Sound(s.snaps[b]) && LocalOk(s.snaps[b], s.cells[b], s.threads[t])
            && Runnable(s.cells[b], s.threads[t])
  {
    var b := Target(hash, s, s.threads[t].op);
    assert ThreadOk(hash, s, t) && CellOk(hash, s, b);
    if InBucket(s.threads[t]) { BucketStep(s.snaps[b], s.cells[b], s.threads[t]); }
  }

  lemma BucketStepKeeps<K, V>(hash: Hash<K>, s: Sys<K, V>, t: nat)
    requires LockInv(hash, s) && Enabled(hash, s, Advance(t)) && InBucket(s.threads[t])
    requires var b := Target(hash, s, s.threads[t].op); Runnable(s.cells[b], s.threads[t]) && Sound(s.snaps[b])
    ensures LockInv(hash, Advanced(hash, s, t))
  {
    var b := Target(hash, s, s.threads[t].op);
    AdvanceReady(hash, s, t);
    assert CellOk(hash, s, b);
    BucketStep(s.snaps[b], s.cells[b], s.threads[t]);
    LocalStep(hash, s, Advanced(hash, s, t), b, t);
  }

  lemma CountKeeps<K, V>(hash: Hash<K>, s: Sys<K, V>, t: nat)
    requires LockInv(hash, s) && Enabled(hash, s, Advance(t)) && s.threads[t].Count?
    requires Sound(s.snaps[Target(hash, s, s.threads[t].op)])
    ensures LockInv(hash, Advanced(hash, s, t))
  {
    var b := Target(hash, s, s.threads[t].op);
    AdvanceReady(hash, s, t);
    assert CellOk(hash, s, b);
    var r := Advanced(hash, s, t);
    assert r.threads[t].Flag? || r.threads[t].Release?;
    assert LocalOk(r.snaps[b], r.cells[b], r.threads[t]);
    assert Owed(s, b) == 0 && Owed(r, b) == Delta(s.threads[t].answer);
    assert !Flagged(s, b) && !Flagged(r, b);
    LocalStep(hash, s, r, b, t);
  }

  lemma FlagKeeps<K, V>(hash: Hash<K>, s: Sys<K, V>, t: nat)
    requires LockInv(hash, s) && Enabled(hash, s, Advance(t)) && s.threads[t].Flag?
    requires Sound(s.snaps[Target(hash, s, s.threads[t].op)])
    ensures LockInv(hash, Advanced(hash, s, t))
  {
    var pc := s.threads[t];
    var b := Target(hash, s, pc.op);
    AdvanceReady(hash, s, t);
    assert CellOk(hash, s, b);
    AfterOpIsCalled(s.snaps[b], pc.op);
    assert s.cells[b].size == |Held(AfterOp(s.snaps[b], pc.op))|;
    var r := Advanced(hash, s, t);
    assert r.threads[t] == Release(pc.op, pc.answer);
    assert LocalOk(r.snaps[b], r.cells[b], r.threads[t]);
    assert Owed(s, b) == Owed(r, b) && !Flagged(s, b);
    LocalStep(hash, s, r, b, t);
  }

  lemma ReleaseKeeps<K, V>(hash: Hash<K>, s: Sys<K, V>, t: nat)
    requires LockInv(hash, s) && Enabled(hash, s, Advance(t)) && s.threads[t].Release?
    requires Sound(s.snaps[Target(hash, s, s.threads[t].op)])
    ensures LockInv(hash, Advanced(hash, s, t))
    ensures s.threads[t].answer == Step(hash, s.model, s.threads[t].op).1
  {
    var pc := s.threads[t];
    var b := Target(hash, s, pc.op);
    AdvanceReady(hash, s, t);
    assert CellOk(hash, s, b);
    AfterOpIsCalled(s.snaps[b], pc.op);
    StepIsCalled(hash, s.model, pc.op);
    assert Flagged(s, b) ==> AnyFlagged(s);
    LocalStep(hash, s, Advanced(hash, s, t), b, t);
  }

  // ---------- Runs ----------

  /** One step of the whole system. */
  ghost function Do<K, V>(hash: Hash<K>, s: Sys<K, V>, a: Action<K, V>): (r: Sys<K, V>)
    requires LockInv(hash, s) && Enabled(hash, s, a)
    ensures LockInv(hash, r)
    ensures r.log == s.log || (a.Advance? && s.threads[a.t].Release? &&
      r.log == s.log + [(s.threads[a.t].op, Step(hash, s.model, s.threads[a.t].op).1)])
    ensures r.log == s.log ==> r.model == s.model
    ensures r.log != s.log ==> r.model == Step(hash, s.model, s.threads[a.t].op).0
  {
    match a
    case Start(t, op) => StartKeeps(hash, s, t, op); s.(threads := s.threads[t := Waiting(op)])
    case Acquire(t) => AcquireKeeps(hash, s, t); Acquired(hash, s, t)
    case Advance(t) =>
      AdvanceReady(hash, s, t);
      AdvanceKeeps(hash, s, t);
      Advanced(hash, s, t)
  }

  lemma AdvanceKeeps<K, V>(hash: Hash<K>, s: Sys<K, V>, t: nat)
    requires LockInv(hash, s) && Enabled(hash, s, Advance(t))
    requires var b := Target(hash, s, s.threads[t].op); Runnable(s.cells[b], s.threads[t]) && Sound(s.snaps[b])
    ensures LockInv(hash, Advanced(hash, s, t))
    ensures s.threads[t].Release? ==> s.threads[t].answer == Step(hash, s.model, s.threads[t].op).1
  {
    var pc := s.threads[t];
    if pc.Count? { CountKeeps(hash, s, t); }
    else if pc.Flag? { FlagKeeps(hash, s, t); }
    else if pc.Release? { ReleaseKeeps(hash, s, t); }
    else { BucketStepKeeps(hash, s, t); }
  }

  /** Every action of `acts` is enabled when its turn comes. */
  ghost predicate CanRun<K, V>(hash: Hash<K>, s: Sys<K, V>, acts: seq<Action<K, V>>)
    requires LockInv(hash, s)
    decreases |acts|
  {
    acts == [] || (Enabled(hash, s, acts[0]) && CanRun(hash, Do(hash, s, acts[0]), acts[1..]))
  }

  ghost function RunAll<K, V>(hash: Hash<K>, s: Sys<K, V>, acts: seq<Action<K, V>>): (r: Sys<K, V>)
    requires LockInv(hash, s) && CanRun(hash, s, acts)
    ensures LockInv(hash, r)
    decreases |acts|
  {
    if acts == [] then s else RunAll(hash, Do(hash, s, acts[0]), acts[1..])
  }

  ghost function Ops<K, V>(log: seq<(Op<K, V>, Answer<V>)>): (r: seq<Op<K, V>>)
    ensures |r| == |log|
  {
    seq(|log|, i requires 0 <= i < |log| => log[i].0)
  }

  ghost function Answers<K, V>(log: seq<(Op<K, V>, Answer<V>)>): (r: seq<Answer<V>>)
    ensures |r| == |log|
  {
    seq(|log|, i requires 0 <= i < |log| => log[i].1)
  }

  /** Calling the finished operations one after the other, in the order in which their locks were released,
      gives the same answers and builds `model`. */
  ghost predicate Serial<K, V>(hash: Hash<K>, init: State<K, V>, s: Sys<K, V>)
    requires |init.chains| > 0
  {
    && (forall i :: 0 <= i < |s.log| ==> !Ops(s.log)[i].Rehash?)
    && Run(hash, init, Ops(s.log)) == (s.model, Answers(s.log))
  }

  lemma {:induction false} RunSnoc<K, V>(hash: Hash<K>, s: State<K, V>, ops: seq<Op<K, V>>, op: Op<K, V>)
    requires |s.chains| > 0
    ensures var (t, answers) := Run(hash, s, ops);
            |t.chains| > 0 && Run(hash, s, ops + [op]) == (Step(hash, t, op).0, answers + [Step(hash, t, op).1])
    decreases |ops|
  {
    var all := ops + [op];
    if ops == [] {
      var (u, a) := Step(hash, s, op);
      assert all[0] == op && all[1..] == [];
      assert Run(hash, u, all[1..]) == (u, []);
      assert [a] + [] == [a] && [] + [a] == [a];
    } else {
      assert all[0] == ops[0] && all[1..] == ops[1..] + [op];
      var (u, a) := Step(hash, s, ops[0]);
      RunSnoc(hash, u, ops[1..], op);
      var (t, rest) := Run(hash, u, ops[1..]);
      assert [a] + (rest + [Step(hash, t, op).1]) == ([a] + rest) + [Step(hash, t, op).1];
    }
  }

  lemma SerialKept<K, V>(hash: Hash<K>, init: State<K, V>, s: Sys<K, V>, a: Action<K, V>)
    requires |init.chains| > 0 && LockInv(hash, s) && Enabled(hash, s, a) && Serial(hash, init, s)
    ensures Serial(hash, init, Do(hash, s, a))
  {
    var r := Do(hash, s, a);
    if r.log != s.log {
      var op := s.threads[a.t].op;
      RunSnoc(hash, init, Ops(s.log), op);
      assert Ops(r.log) == Ops(s.log) + [op];
      assert Answers(r.log) == Answers(s.log) + [Step(hash, s.model, op).1];
    }
  }

  lemma {:induction false} SerialRun<K, V>(hash: Hash<K>, init: State<K, V>, s: Sys<K, V>, acts: seq<Action<K, V>>)
    requires |init.chains| > 0 && LockInv(hash, s) && CanRun(hash, s, acts) && Serial(hash, init, s)
    ensures Serial(hash, init, RunAll(hash, s, acts))
    decreases |acts|
  {
    if acts != [] {
      SerialKept(hash, init, s, acts[0]);
      SerialRun(hash, init, Do(hash, s, acts[0]), acts[1..]);
    }
  }

  // ---------- The initial state ----------

  ghost function FreshStore<K, V>(len: nat, k: K, v: V): Store<K, V>
    requires len > 0
  {
    Store(seq(len, i => Node(if i + 1 < len then i + 1 else -1, k, v)), -1, 0, 0)
  }

  /** `count` empty buckets of length `len`, and `threads` idle threads. */
  ghost function Fresh<K, V>(count: nat, len: nat, threads: nat, k: K, v: V): Sys<K, V>
    requires len > 0
  {
    var store := FreshStore(len, k, v);
    Sys(seq(count, i => store), seq(count, i => None), 0, false, seq(threads, i => Idle),
        seq(count, i => Snap(store, [], seq(len, j => j))), Empty(count, len), [], [])
  }

  lemma FreshSound<K, V>(len: nat, k: K, v: V)
    requires len > 0
    ensures WellFormed(FreshStore(len, k, v), [], seq(len, j => j))
  {
    var free := seq(len, j => j);
    forall x | 0 <= x < len ensures x in free {
      assert free[x] == x;
    }
  }

  lemma FreshInv<K, V>(hash: Hash<K>, count: nat, len: nat, threads: nat, k: K, v: V)
    requires count > 0 && len > 0
    ensures var s := Fresh(count, len, threads, k, v);
            LockInv(hash, s) && Serial(hash, Empty(count, len), s)
  {
    var s := Fresh(count, len, threads, k, v);
    FreshSound(len, k, v);
    SumZero(AllOwed(s));
    assert Ops(s.log) == [] && Answers(s.log) == [];
  }

  // ---------- Main theorems ----------

  /** No two threads are inside a critical section of the same bucket. */
  ghost predicate Exclusive<K, V>(hash: Hash<K>, s: Sys<K, V>)
    requires Shaped(s)
  {
    forall t, u :: 0 <= t < u < |s.threads| && Critical(s.threads[t]) && Critical(s.threads[u]) ==>
      && !s.threads[t].op.Rehash? && !s.threads[u].op.Rehash?
      && Target(hash, s, s.threads[t].op) != Target(hash, s, s.threads[u].op)
  }

  predicate Quiet<K, V>(s: Sys<K, V>) {
    forall t :: 0 <= t < |s.threads| ==> !Critical(s.threads[t])
  }

  ghost predicate UnlockedHold<K, V>(s: Sys<K, V>)
    requires Shaped(s)
  {
    forall b :: 0 <= b < |s.cells| && s.locks[b].None? ==>
      && WellFormed(s.cells[b], s.snaps[b].live, s.snaps[b].free)
      && Entries(s.cells[b].nodes, s.snaps[b].live) == s.model.chains[b]
  }

  /** At every moment of every interleaving the finished calls have a one-after-the-other explanation, every
      unlocked bucket is well formed and holds that run's chain, no two threads work on one bucket, and once no
      call is inside a critical section `m_size` is the sum of the bucket sizes and the flag says whether some bucket was
      ever full. */
  lemma Serializable<K, V>(hash: Hash<K>, count: nat, len: nat, threads: nat, k: K, v: V, acts: seq<Action<K, V>>)
    requires count > 0 && len > 0
    requires LockInv(hash, Fresh(count, len, threads, k, v)) && CanRun(hash, Fresh(count, len, threads, k, v), acts)
    ensures var s := RunAll(hash, Fresh(count, len, threads, k, v), acts);
            && Serial(hash, Empty(count, len), s)
            && UnlockedHold(s)
            && Exclusive(hash, s)
            && (Quiet(s) ==> s.size == Sum(BucketSizes(s)) == s.model.size)
            && (Quiet(s) ==> s.fill == s.model.fill && forall b :: 0 <= b < |s.cells| && s.cells[b].size == len ==> s.fill)
            && (Quiet(s) ==> (s.fill <==> Theorems.EverFull(hash, Empty(count, len), Ops(s.log))))
  {
    var s := RunAll(hash, Fresh(count, len, threads, k, v), acts);
    FreshInv(hash, count, len, threads, k, v);
    SerialRun(hash, Empty(count, len), Fresh(count, len, threads, k, v), acts);
    InvMeans(hash, s);
    Theorems.EmptyInv<K, V>(hash, count, len);
    Theorems.RunKeepsInvIff(hash, Empty(count, len), Ops(s.log));
    NoRehashFits(hash, Empty(count, len), Ops(s.log));
    Theorems.RunFlagIff(hash, Empty(count, len), Ops(s.log));
    SerialLen(hash, Empty(count, len), Ops(s.log));
    if Quiet(s) { QuietSizes(hash, s); }
  }

  /** The `m_size` of every bucket. */
  function BucketSizes<K, V>(s: Sys<K, V>): seq<int> {
    seq(|s.cells|, b requires 0 <= b < |s.cells| => s.cells[b].size)
  }

  lemma {:induction false} NoRehashFits<K, V>(hash: Hash<K>, init: State<K, V>, ops: seq<Op<K, V>>)
    requires |init.chains| > 0 && forall i :: 0 <= i < |ops| ==> !ops[i].Rehash?
    ensures Theorems.RunFits(hash, init, ops)
    decreases |ops|
  {
    if ops != [] { NoRehashFits(hash, Step(hash, init, ops[0]).0, ops[1..]); }
  }

  /** No call changes the bucket length. */
  lemma {:induction false} SerialLen<K, V>(hash: Hash<K>, init: State<K, V>, ops: seq<Op<K, V>>)
    requires |init.chains| > 0
    ensures Run(hash, init, ops).0.len == init.len
    decreases |ops|
  {
    if ops != [] { SerialLen(hash, Step(hash, init, ops[0]).0, ops[1..]); }
  }

  /** With every lock free each bucket's own count is the length of its chain, and they add up to `m_size`. */
  lemma QuietSizes<K, V>(hash: Hash<K>, s: Sys<K, V>)
    requires LockInv(hash, s) && Quiet(s)
    ensures forall b :: 0 <= b < |s.cells| ==> s.cells[b].size == |s.model.chains[b]|
    ensures Sum(BucketSizes(s)) == Total(s.model.chains)
  {
    forall b | 0 <= b < |s.cells| ensures s.cells[b].size == |s.model.chains[b]| {
      QuietFree(hash, s, b);
      SnapSize(s.snaps[b]);
    }
    SumIsTotal(BucketSizes(s), s.model.chains);
  }

  /** With no call inside, no bucket is locked. */
  lemma QuietFree<K, V>(hash: Hash<K>, s: Sys<K, V>, b: nat)
    requires LockInv(hash, s) && Quiet(s) && b < |s.cells|
    ensures s.cells[b] == s.snaps[b].store && Sound(s.snaps[b]) && Held(s.snaps[b]) == s.model.chains[b]
  {
    assert CellOk(hash, s, b);
    if s.locks[b].Some? { HolderCritical(hash, s, b); }
    FreeCell(hash, s, b);
  }

  lemma HolderCritical<K, V>(hash: Hash<K>, s: Sys<K, V>, b: nat)
    requires Shaped(s) && b < |s.cells| && CellOk(hash, s, b)
    ensures s.locks[b].Some? ==> s.locks[b].value < |s.threads| && Critical(s.threads[s.locks[b].value])
  {
  }

  lemma FreeCell<K, V>(hash: Hash<K>, s: Sys<K, V>, b: nat)
    requires Shaped(s) && b < |s.cells| && CellOk(hash, s, b)
    ensures s.locks[b].None? ==> s.cells[b] == s.snaps[b].store
    ensures Sound(s.snaps[b]) && Held(s.snaps[b]) == s.model.chains[b]
  {
  }

  lemma SnapSize<K, V>(sn: Snap<K, V>)
    requires Sound(sn)
    ensures sn.store.size == |Held(sn)|
  {
  }

  lemma {:induction false} SumIsTotal<K, V>(sizes: seq<int>, chains: seq<Chain<K, V>>)
    requires |sizes| == |chains| && forall b :: 0 <= b < |chains| ==> sizes[b] == |chains[b]|
    ensures Sum(sizes) == Total(chains)
  {
    if chains != [] { SumIsTotal(sizes[..|sizes| - 1], chains[..|chains| - 1]); }
  }

  lemma InvMeans<K, V>(hash: Hash<K>, s: Sys<K, V>)
    requires LockInv(hash, s)
    ensures UnlockedHold(s) && Exclusive(hash, s)
    ensures Quiet(s) ==> s.size == s.model.size && s.fill == s.model.fill
  {
    forall b | 0 <= b < |s.cells| && s.locks[b].None?
      ensures WellFormed(s.cells[b], s.snaps[b].live, s.snaps[b].free)
      ensures Entries(s.cells[b].nodes, s.snaps[b].live) == s.model.chains[b]
    {
      assert CellOk(hash, s, b);
    }
    forall t, u | 0 <= t < u < |s.threads| && Critical(s.threads[t]) && Critical(s.threads[u])
      ensures !s.threads[t].op.Rehash? && !s.threads[u].op.Rehash?
      ensures Target(hash, s, s.threads[t].op) != Target(hash, s, s.threads[u].op)
    {
      assert ThreadOk(hash, s, t) && ThreadOk(hash, s, u);
    }
    if Quiet(s) {
      forall b | 0 <= b < |s.locks| ensures Owed(s, b) == 0 && !Flagged(s, b) {
        assert CellOk(hash, s, b);
      }
      SumZero(AllOwed(s));
    }
  }

  /** Read through the finite map: a concurrent run whose serial order never inserts a bucket's last key
      answers, call by call, as the finite map does, and ends with as many entries. */
  lemma ConcurrentRefinesMap<K(!new), V>(hash: Hash<K>, count: nat, len: nat, threads: nat, k: K, v: V, acts: seq<Action<K, V>>)
    requires count > 0 && len > 0
    requires LockInv(hash, Fresh(count, len, threads, k, v)) && CanRun(hash, Fresh(count, len, threads, k, v), acts)
    requires Theorems.RunHarmless(hash, Empty(count, len), Ops(RunAll(hash, Fresh(count, len, threads, k, v), acts).log))
    ensures var s := RunAll(hash, Fresh(count, len, threads, k, v), acts);
            var (m, answers) := Theorems.MapRun(hash, Empty(count, len), map[], Ops(s.log));
            && Answers(s.log) == answers
            && Theorems.Represents(hash, s.model, m)
            && (Quiet(s) ==> s.size == |m|)
  {
    var s := RunAll(hash, Fresh(count, len, threads, k, v), acts);
    Serializable(hash, count, len, threads, k, v, acts);
    Theorems.EmptyInv<K, V>(hash, count, len);
    Theorems.RunRefines(hash, Empty(count, len), map[], Ops(s.log));
  }
}
