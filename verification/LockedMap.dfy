/** `experimental::Map` under `OMP_EXEC`: any number of threads run insert, insert_or_assign, erase and find,
    one assignment at a time, under one lock per bucket and an atomic `m_size`. */
module LockedMap {
  import opened Chains
  import opened ChainedMapSpec
  import opened NodeStore
  import opened Wrappers

  // ---------- States ----------

  /** Where a thread stands in the code of its operation.  `pos` counts the nodes passed; no transition
      depends on it. */
  datatype Pc<K, V> =
    | Idle
    | Waiting(op: Op<K, V>)
    | Enter(op: Op<K, V>)
    | Walk(op: Op<K, V>, ind: int, prev: int, pos: nat)
    | Append(op: Op<K, V>, tail: int, fresh_: int, stage: nat)
    | Assign(op: Op<K, V>, ind: int, pos: nat)
    | Unlink(op: Op<K, V>, prev: int, ind: int, stage: nat, pos: nat)
    | Count(op: Op<K, V>, answer: Answer<V>)
    | Flag(op: Op<K, V>, answer: Answer<V>)
    | Release(op: Op<K, V>, answer: Answer<V>)

  /** A bucket as it was when its lock was last free, with the node indices of its two chains. */
  datatype Snap<K, V> = Snap(store: Store<K, V>, live: seq<int>, free: seq<int>)

  /** `cells`, `locks`, `size`, `fill` and `threads` are the program's state.  `snaps`, `model`, `log` and `who` are
      history: the last unlocked contents, the map that the finished calls have built one after the other,
      and the finished calls with their answers; `who` are the threads that made them. */
  datatype Sys<K, V> = Sys(
    cells: seq<Store<K, V>>, locks: seq<Option<nat>>, size: int, fill: bool, threads: seq<Pc<K, V>>,
    snaps: seq<Snap<K, V>>, model: State<K, V>, log: seq<(Op<K, V>, Answer<V>)>, who: seq<nat>)

  predicate Critical<K, V>(pc: Pc<K, V>) {
    !pc.Idle? && !pc.Waiting?
  }

  // ---------- Transitions ----------

  /** The next assignment of `insert_*` once a free node has been chosen. */
  function AppendWrite<K, V>(s: Store<K, V>, tail: int, f: int, k: K, v: V, stage: nat): Store<K, V>
    requires 0 <= f < |s.nodes| && -1 <= tail < |s.nodes|
  {
    if stage == 0 then
      if tail == -1 then s.(head := f) else s.(nodes := s.nodes[tail := s.nodes[tail].(next := f)])
    else if stage == 1 then s.(free := s.nodes[f].next)
    else if stage == 2 then s.(nodes := s.nodes[f := s.nodes[f].(next := -1)])
    else if stage == 3 then s.(nodes := s.nodes[f := s.nodes[f].(key := k)])
    else if stage == 4 then s.(nodes := s.nodes[f := s.nodes[f].(value := v)])
    else s.(size := s.size + 1)
  }

  /** The next assignment of `remove` once the node has been found. */
  function UnlinkWrite<K, V>(s: Store<K, V>, prev: int, ind: int, stage: nat): Store<K, V>
    requires 0 <= ind < |s.nodes| && -1 <= prev < |s.nodes|
  {
    if stage == 0 then
      if prev == -1 then s else s.(nodes := s.nodes[prev := s.nodes[prev].(next := s.nodes[ind].next)])
    else if stage == 1 then if ind == s.head then s.(head := s.nodes[ind].next) else s
    else if stage == 2 then s.(nodes := s.nodes[ind := s.nodes[ind].(next := s.free)])
    else if stage == 3 then s.(free := ind)
    else s.(size := s.size - 1)
  }

  /** The branch taken right after the lock is acquired. */
  function Entered<K, V>(s: Store<K, V>, op: Op<K, V>): Pc<K, V>
    requires !op.Rehash?
  {
    if op.Insert? && s.free == -1 then Release(op, Refused)
    else if s.head != -1 then Walk(op, s.head, -1, 0)
    else if op.Erase? then Release(op, Removed(false))
    else if op.Find? then Release(op, Found(None))
    else Append(op, -1, s.free, 0)
  }

  /** One look at a node of the chain. */
  function Walked<K(==), V>(s: Store<K, V>, op: Op<K, V>, ind: int, prev: int, pos: nat): Pc<K, V>
    requires !op.Rehash? && 0 <= ind < |s.nodes|
  {
    var node := s.nodes[ind];
    var last := node.next == -1;
    match op
    case Insert(k, v) =>
      if last then Append(op, ind, s.free, 0)
      else if node.key == k then Release(op, Present(node.value))
      else Walk(op, node.next, ind, pos + 1)
    case InsertOrAssign(k, v) =>
      if node.key == k then Assign(op, ind, pos)
      else if !last then Walk(op, node.next, ind, pos + 1)
      else if s.free != -1 then Append(op, ind, s.free, 0)
      else Release(op, Refused)
    case Erase(k) =>
      if node.key == k then Unlink(op, prev, ind, 0, pos)
      else if !last then Walk(op, node.next, ind, pos + 1)
      else Release(op, Removed(false))
    case Find(k) =>
      if node.key == k then Release(op, Found(Some(node.value)))
      else if !last then Walk(op, node.next, ind, pos + 1)
      else Release(op, Found(None))
  }

  predicate InRange(i: int, n: nat) {
    -1 <= i < n
  }

  /** One assignment of a thread that holds the lock of its bucket: the new bucket contents and place. */
  function Executed<K(==), V>(s: Store<K, V>, pc: Pc<K, V>): (Store<K, V>, Pc<K, V>)
    requires Runnable(s, pc) && Critical(pc)
  {
    match pc
    case Enter(op) => (s, Entered(s, op))
    case Walk(op, ind, prev, pos) => (s, Walked(s, op, ind, prev, pos))
    case Append(op, tail, f, stage) =>
      (AppendWrite(s, tail, f, op.k, op.v, stage), if stage < 5 then Append(op, tail, f, stage + 1) else Count(op, Added))
    case Assign(op, ind, _) =>
      (s.(nodes := s.nodes[ind := s.nodes[ind].(value := op.v)]), Release(op, Present(op.v)))
    case Unlink(op, prev, ind, stage, pos) =>
      (UnlinkWrite(s, prev, ind, stage), if stage < 4 then Unlink(op, prev, ind, stage + 1, pos) else Count(op, Removed(true)))
    case Count(_, _) => (s, pc)
    case Flag(_, _) => (s, pc)
    case Release(_, _) => (s, pc)
  }

  /** The accesses of the next instruction stay inside the bucket. */
  predicate Runnable<K, V>(s: Store<K, V>, pc: Pc<K, V>) {
    match pc
    case Enter(op) => !op.Rehash?
    case Walk(op, ind, prev, _) => !op.Rehash? && 0 <= ind < |s.nodes|
    case Append(op, tail, f, stage) => (op.Insert? || op.InsertOrAssign?) && 0 <= f < |s.nodes| && InRange(tail, |s.nodes|)
    case Assign(op, ind, _) => op.InsertOrAssign? && 0 <= ind < |s.nodes|
    case Unlink(op, prev, ind, stage, _) => op.Erase? && 0 <= ind < |s.nodes| && InRange(prev, |s.nodes|)
    case _ => true
  }

  datatype Action<K, V> = Start(t: nat, op: Op<K, V>) | Acquire(t: nat) | Advance(t: nat)

  function Target<K, V>(hash: Hash<K>, s: Sys<K, V>, op: Op<K, V>): (b: nat)
    requires !op.Rehash? && |s.cells| > 0
    ensures b < |s.cells|
  {
    BucketOf(hash, |s.cells|, op.k)
  }

  predicate Shaped<K, V>(s: Sys<K, V>) {
    |s.cells| > 0 && |s.locks| == |s.snaps| == |s.model.chains| == |s.cells| && |s.who| == |s.log|
  }

  predicate Enabled<K, V>(hash: Hash<K>, s: Sys<K, V>, a: Action<K, V>)
    requires Shaped(s)
  {
    a.t < |s.threads| &&
    match a
    case Start(t, op) => s.threads[t].Idle? && !op.Rehash?
    case Acquire(t) => s.threads[t].Waiting? && !s.threads[t].op.Rehash? && s.locks[Target(hash, s, s.threads[t].op)].None?
    case Advance(t) => Critical(s.threads[t]) && !s.threads[t].op.Rehash?
  }

  ghost function Acquired<K, V>(hash: Hash<K>, s: Sys<K, V>, t: nat): (r: Sys<K, V>)
    requires Shaped(s) && Enabled(hash, s, Acquire(t))
  {
    var op := s.threads[t].op;
    s.(threads := s.threads[t := Enter(op)], locks := s.locks[Target(hash, s, op) := Some(t)])
  }

  /** One step of a thread in its critical section.  `Count` is the atomic update of `m_size`, `Flag` the
      test and store of `m_bucket_fill`, `Release` the unlocking; the others work on the bucket. */
  ghost function Advanced<K, V>(hash: Hash<K>, s: Sys<K, V>, t: nat): (r: Sys<K, V>)
    requires Shaped(s) && Enabled(hash, s, Advance(t))
    requires Runnable(s.cells[Target(hash, s, s.threads[t].op)], s.threads[t])
    requires Sound(s.snaps[Target(hash, s, s.threads[t].op)])
  {
    var pc := s.threads[t];
    var b := Target(hash, s, pc.op);
    if pc.Count? then
      s.(size := if pc.answer.Added? then s.size + 1 else s.size - 1,
         threads := s.threads[t := if pc.answer.Added? then Flag(pc.op, pc.answer) else Release(pc.op, pc.answer)])
    else if pc.Flag? then
      s.(fill := s.fill || s.cells[b].size == |s.cells[b].nodes|,
         threads := s.threads[t := Release(pc.op, pc.answer)])
    else if pc.Release? then
      s.(locks := s.locks[b := None], threads := s.threads[t := Idle],
         snaps := s.snaps[b := AfterOp(s.snaps[b], pc.op)],
         model := Step(hash, s.model, pc.op).0, log := s.log + [(pc.op, pc.answer)], who := s.who + [t])
    else
      var r := Executed(s.cells[b], pc);
      s.(cells := s.cells[b := r.0], threads := s.threads[t := r.1])
  }

  // ---------- What a whole operation does to a bucket ----------

  ghost predicate Sound<K, V>(sn: Snap<K, V>) {
    WellFormed(sn.store, sn.live, sn.free)
  }

  ghost function Held<K, V>(sn: Snap<K, V>): Chain<K, V>
    requires Sound(sn)
  {
    Entries(sn.store.nodes, sn.live)
  }

  ghost function Grown<K, V>(sn: Snap<K, V>, k: K, v: V): Snap<K, V>
    requires Sound(sn) && sn.store.free != -1
  {
    AppendKeeps(sn.store, sn.live, sn.free, k, v);
    Snap(Appended(sn.store, Tail(sn.live), k, v), sn.live + [sn.store.free], sn.free[1..])
  }

  ghost function Shrunk<K, V>(sn: Snap<K, V>, i: nat): Snap<K, V>
    requires Sound(sn) && i < |sn.live|
  {
    Snap(Unlinked(sn.store, if i == 0 then -1 else sn.live[i - 1], sn.live[i]),
         sn.live[..i] + sn.live[i + 1..], [sn.live[i]] + sn.free)
  }

  /** The bucket after a whole operation that started from `sn`. */
  ghost function AfterOp<K, V>(sn: Snap<K, V>, op: Op<K, V>): Snap<K, V>
    requires Sound(sn)
  {
    FullIff(sn.store, sn.live, sn.free);
    var c := Held(sn);
    match op
    case Insert(k, v) =>
      if sn.store.free != -1 && FirstWith(c, k) + 1 >= |c| then Grown(sn, k, v) else sn
    case InsertOrAssign(k, v) =>
      var i := FirstWith(c, k);
      if i < |c| then sn.(store := Assigned(sn.store, sn.live[i], v))
      else if sn.store.free != -1 then Grown(sn, k, v) else sn
    case Erase(k) =>
      var i := FirstWith(c, k);
      if i < |c| then Shrunk(sn, i) else sn
    case _ => sn
  }

  /** The chain and the answer of one call on its bucket, as `ChainedMapSpec.Step` has them. */
  ghost function Called<K, V>(c: Chain<K, V>, len: nat, op: Op<K, V>): (Chain<K, V>, Answer<V>)
    requires !op.Rehash?
  {
    match op
    case Insert(k, v) =>
      var (d, o) := InsertNoUpdate(c, len, k, v);
      (d, if o.Full? then Refused else if o.Inserted? then Added else Present(c[o.at].value))
    case InsertOrAssign(k, v) =>
      var (d, o) := InsertUpdate(c, len, k, v);
      (d, if o.Full? then Refused else if o.Inserted? then Added else Present(v))
    case Erase(k) => var (d, found) := Chains.Remove(c, k); (d, Removed(found))
    case Find(k) => (c, Found(Lookup(c, k)))
  }

  ghost function Delta<V>(ans: Answer<V>): int {
    if ans.Added? then 1 else if ans == Removed(true) then -1 else 0
  }

  lemma AfterOpIsCalled<K, V>(sn: Snap<K, V>, op: Op<K, V>)
    requires Sound(sn) && !op.Rehash?
    ensures Sound(AfterOp(sn, op)) && |AfterOp(sn, op).store.nodes| == |sn.store.nodes|
    ensures Held(AfterOp(sn, op)) == Called(Held(sn), |sn.store.nodes|, op).0
  {
    match op {
      case Insert(k, v) => AfterInsert(sn, k, v);
      case InsertOrAssign(k, v) => AfterAssign(sn, k, v);
      case Erase(k) => AfterErase(sn, k);
      case Find(_) =>
    }
  }

  lemma AfterInsert<K, V>(sn: Snap<K, V>, k: K, v: V)
    requires Sound(sn)
    ensures var r := AfterOp(sn, Insert(k, v));
            && Sound(r) && |r.store.nodes| == |sn.store.nodes|
            && Held(r) == Chains.InsertNoUpdate(Held(sn), |sn.store.nodes|, k, v).0
  {
    FullIff(sn.store, sn.live, sn.free);
    if sn.store.free != -1 { AppendKeeps(sn.store, sn.live, sn.free, k, v); }
  }

  lemma AfterAssign<K, V>(sn: Snap<K, V>, k: K, v: V)
    requires Sound(sn)
    ensures var r := AfterOp(sn, InsertOrAssign(k, v));
            && Sound(r) && |r.store.nodes| == |sn.store.nodes|
            && Held(r) == Chains.InsertUpdate(Held(sn), |sn.store.nodes|, k, v).0
  {
    FullIff(sn.store, sn.live, sn.free);
    var i := FirstWith(Held(sn), k);
    if i < |sn.live| {
      AssignKeeps(sn.store, sn.live, sn.free, i, v);
    } else if sn.store.free != -1 {
      AppendKeeps(sn.store, sn.live, sn.free, k, v);
    }
  }

  lemma AfterErase<K, V>(sn: Snap<K, V>, k: K)
    requires Sound(sn)
    ensures var r := AfterOp(sn, Erase(k));
            && Sound(r) && |r.store.nodes| == |sn.store.nodes|
            && Held(r) == Chains.Remove(Held(sn), k).0
  {
    var i := FirstWith(Held(sn), k);
    if i < |sn.live| { UnlinkKeeps(sn.store, sn.live, sn.free, i); }
  }

  lemma StepIsCalled<K, V>(hash: Hash<K>, s: State<K, V>, op: Op<K, V>)
    requires |s.chains| > 0 && !op.Rehash?
    ensures var (t, a) := Step(hash, s, op);
            var (c, ans) := Called(Home(hash, s, op.k), s.len, op);
            && t.chains == s.chains[BucketOf(hash, |s.chains|, op.k) := c] && t.len == s.len
            && t.size == s.size + Delta(ans) && a == ans
            && t.fill == (s.fill || (ans.Added? && |c| == s.len))
  {
  }
}
