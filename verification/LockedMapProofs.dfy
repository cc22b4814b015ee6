/** Every interleaving of the locked operations keeps each unlocked bucket well formed and answers as some
    one-after-the-other run of the same calls does. */
module LockedMapProofs {
  import opened Chains
  import opened ChainedMapSpec
  import opened NodeStore
  import opened LockedMap

  // ---------- Inside one critical section ----------

  ghost function AppendStage<K, V>(s: Store<K, V>, tail: int, k: K, v: V, n: nat): (r: Store<K, V>)
    requires 0 <= s.free < |s.nodes| && -1 <= tail < |s.nodes|
    ensures |r.nodes| == |s.nodes|
  {
    if n == 0 then s else AppendWrite(AppendStage(s, tail, k, v, n - 1), tail, s.free, k, v, n - 1)
  }

  ghost function UnlinkStage<K, V>(s: Store<K, V>, prev: int, ind: int, n: nat): (r: Store<K, V>)
    requires 0 <= ind < |s.nodes| && -1 <= prev < |s.nodes|
    ensures |r.nodes| == |s.nodes|
  {
    if n == 0 then s else UnlinkWrite(UnlinkStage(s, prev, ind, n - 1), prev, ind, n - 1)
  }

  /** The six assignments of an insertion, in order, are `Appended`. */
  lemma AppendStages<K, V>(s: Store<K, V>, tail: int, k: K, v: V)
    requires 0 <= s.free < |s.nodes| && -1 <= tail < |s.nodes|
    ensures AppendStage(s, tail, k, v, 6) == Appended(s, tail, k, v)
  {
    var s1 := AppendStage(s, tail, k, v, 1);
    var s2 := AppendStage(s, tail, k, v, 2);
    var s3 := AppendStage(s, tail, k, v, 3);
    var s4 := AppendStage(s, tail, k, v, 4);
    var s5 := AppendStage(s, tail, k, v, 5);
    assert s1 == AppendWrite(AppendStage(s, tail, k, v, 0), tail, s.free, k, v, 0) && AppendStage(s, tail, k, v, 0) == s;
    assert s2 == AppendWrite(s1, tail, s.free, k, v, 1) && s3 == AppendWrite(s2, tail, s.free, k, v, 2);
    assert s4 == AppendWrite(s3, tail, s.free, k, v, 3) && s5 == AppendWrite(s4, tail, s.free, k, v, 4);
    assert AppendStage(s, tail, k, v, 6) == AppendWrite(s5, tail, s.free, k, v, 5);
    assert s5.nodes == s1.nodes[s.free := Node(-1, k, v)];
  }

  lemma UnlinkStages<K, V>(s: Store<K, V>, prev: int, ind: int)
    requires 0 <= ind < |s.nodes| && -1 <= prev < |s.nodes|
    ensures UnlinkStage(s, prev, ind, 5) == Unlinked(s, prev, ind)
  {
    var s1 := UnlinkStage(s, prev, ind, 1);
    var s2 := UnlinkStage(s, prev, ind, 2);
    var s3 := UnlinkStage(s, prev, ind, 3);
    var s4 := UnlinkStage(s, prev, ind, 4);
    assert s2 == UnlinkWrite(s1, prev, ind, 1) && s3 == UnlinkWrite(s2, prev, ind, 2);
    assert s4 == UnlinkWrite(s3, prev, ind, 3) && UnlinkStage(s, prev, ind, 5) == UnlinkWrite(s4, prev, ind, 4);
    assert s1 == UnlinkWrite(UnlinkStage(s, prev, ind, 0), prev, ind, 0);
    assert UnlinkStage(s, prev, ind, 0) == s;
  }

  ghost function Previous(live: seq<int>, pos: nat): int
    requires pos <= |live|
  {
    if pos == 0 then -1 else live[pos - 1]
  }

  /** The operation will add a node. */
  ghost predicate Grows<K, V>(sn: Snap<K, V>, op: Op<K, V>)
    requires Sound(sn)
  {
    && sn.store.free != -1
    && ((op.Insert? && FirstWith(Held(sn), op.k) + 1 >= |sn.live|)
        || (op.InsertOrAssign? && FirstWith(Held(sn), op.k) == |sn.live|))
  }

  ghost predicate Finished<K, V>(sn: Snap<K, V>, cell: Store<K, V>, op: Op<K, V>, ans: Answer<V>)
    requires Sound(sn) && !op.Rehash?
  {
    cell == AfterOp(sn, op).store && ans == Called(Held(sn), |sn.store.nodes|, op).1
  }

  /** What the bucket and the local variables look like at each place, relative to the bucket `sn` that the
      thread found when it took the lock. */
  ghost predicate LocalOk<K, V>(sn: Snap<K, V>, cell: Store<K, V>, pc: Pc<K, V>)
    requires Sound(sn) && Critical(pc) && !pc.op.Rehash?
  {
    match pc
    case Enter(op) => cell == sn.store
    case Walk(op, ind, prev, pos) =>
      && cell == sn.store && pos < |sn.live| && ind == sn.live[pos] && prev == Previous(sn.live, pos)
      && FirstWith(Held(sn), op.k) >= pos && (op.Insert? ==> sn.store.free != -1)
    case Append(op, tail, f, stage) =>
      && Grows(sn, op) && f == sn.store.free && 0 <= f < |sn.store.nodes|
      && tail == Tail(sn.live) && InRange(tail, |sn.store.nodes|)
      && stage <= 5 && cell == AppendStage(sn.store, tail, op.k, op.v, stage)
    case Assign(op, ind, pos) =>
      && op.InsertOrAssign? && cell == sn.store
      && pos == FirstWith(Held(sn), op.k) < |sn.live| && ind == sn.live[pos]
    case Unlink(op, prev, ind, stage, pos) =>
      && op.Erase? && pos == FirstWith(Held(sn), op.k) < |sn.live| && ind == sn.live[pos]
      && 0 <= ind < |sn.store.nodes| && prev == Previous(sn.live, pos) && InRange(prev, |sn.store.nodes|)
      && stage <= 4 && cell == UnlinkStage(sn.store, prev, ind, stage)
    case Count(op, ans) => Finished(sn, cell, op, ans) && Delta(ans) != 0
    case Flag(op, ans) => Finished(sn, cell, op, ans) && ans.Added?
    case Release(op, ans) => Finished(sn, cell, op, ans)
  }

  predicate InBucket<K, V>(pc: Pc<K, V>) {
    Critical(pc) && !pc.Count? && !pc.Flag? && !pc.Release?
  }

  /** The next instruction stays inside the bucket and leads to a place where `LocalOk` holds again. */
  ghost predicate Steps<K, V>(sn: Snap<K, V>, cell: Store<K, V>, pc: Pc<K, V>)
    requires Sound(sn) && InBucket(pc) && !pc.op.Rehash?
  {
    && Runnable(cell, pc)
    && var r := Executed(cell, pc);
       && Critical(r.1) && r.1.op == pc.op && LocalOk(sn, r.0, r.1)
       && !r.1.Flag? && (r.1.Release? ==> Delta(r.1.answer) == 0)
  }

  lemma EnterStep<K, V>(sn: Snap<K, V>, cell: Store<K, V>, pc: Pc<K, V>)
    requires Sound(sn) && pc.Enter? && !pc.op.Rehash? && LocalOk(sn, cell, pc)
    ensures Steps(sn, cell, pc)
  {
    FullIff(sn.store, sn.live, sn.free);
    var op := pc.op;
    if sn.store.head != -1 {
      assert |sn.live| > 0 && sn.live[0] == sn.store.head;
    } else {
      assert |sn.live| == 0;
      if op.Insert? || op.InsertOrAssign? { AppendKeeps(sn.store, sn.live, sn.free, op.k, op.v); }
    }
  }

  /** What one look at the node at position `pos` tells about the first entry with the key. */
  lemma Looked<K, V>(sn: Snap<K, V>, k: K, pos: nat)
    requires Sound(sn) && pos < |sn.live| && FirstWith(Held(sn), k) >= pos
    ensures |Held(sn)| == |sn.live| && 0 <= sn.live[pos] < |sn.store.nodes|
    ensures var node := sn.store.nodes[sn.live[pos]];
            && Held(sn)[pos] == Entry(node.key, node.value)
            && (node.key == k <==> FirstWith(Held(sn), k) == pos)
            && (node.next == -1 <==> pos + 1 == |sn.live|)
            && (pos + 1 < |sn.live| ==> node.next == sn.live[pos + 1])
    ensures InRange(Previous(sn.live, pos), |sn.store.nodes|)
    ensures pos + 1 == |sn.live| ==> Tail(sn.live) == sn.live[pos]
  {
    NextOnChain(sn.store, sn.live, sn.free, pos);
    if pos > 0 { NextOnChain(sn.store, sn.live, sn.free, pos - 1); }
  }

  lemma FreeInRange<K, V>(sn: Snap<K, V>)
    requires Sound(sn)
    ensures sn.store.free != -1 ==> 0 <= sn.store.free < |sn.store.nodes|
    ensures sn.store.free == -1 <==> |sn.live| == |sn.store.nodes|
    ensures |sn.live| <= |sn.store.nodes|
  {
    FullIff(sn.store, sn.live, sn.free);
  }

  lemma WalkInsert<K, V>(sn: Snap<K, V>, pc: Pc<K, V>)
    requires Sound(sn) && pc.Walk? && pc.op.Insert? && LocalOk(sn, sn.store, pc)
    ensures Steps(sn, sn.store, pc)
  {
    Looked(sn, pc.op.k, pc.pos);
    FreeInRange(sn);
    var next := Walked(sn.store, pc.op, pc.ind, pc.prev, pc.pos);
    assert Executed(sn.store, pc) == (sn.store, next);
    assert next.Append? ==> Grows(sn, pc.op);
  }

  lemma WalkAssign<K, V>(sn: Snap<K, V>, pc: Pc<K, V>)
    requires Sound(sn) && pc.Walk? && pc.op.InsertOrAssign? && LocalOk(sn, sn.store, pc)
    ensures Steps(sn, sn.store, pc)
  {
    Looked(sn, pc.op.k, pc.pos);
    FreeInRange(sn);
  }

  lemma WalkErase<K, V>(sn: Snap<K, V>, pc: Pc<K, V>)
    requires Sound(sn) && pc.Walk? && pc.op.Erase? && LocalOk(sn, sn.store, pc)
    ensures Steps(sn, sn.store, pc)
  {
    Looked(sn, pc.op.k, pc.pos);
  }

  lemma WalkFind<K, V>(sn: Snap<K, V>, pc: Pc<K, V>)
    requires Sound(sn) && pc.Walk? && pc.op.Find? && LocalOk(sn, sn.store, pc)
    ensures Steps(sn, sn.store, pc)
  {
    Looked(sn, pc.op.k, pc.pos);
    FindFinished(sn, pc.op);
    var next := Walked(sn.store, pc.op, pc.ind, pc.prev, pc.pos);
    assert next.Release? ==> next == Release(pc.op, Found(Lookup(Held(sn), pc.op.k)));
    assert Executed(sn.store, pc) == (sn.store, next);
  }

  lemma FindFinished<K, V>(sn: Snap<K, V>, op: Op<K, V>)
    requires Sound(sn) && op.Find?
    ensures Finished(sn, sn.store, op, Found(Lookup(Held(sn), op.k)))
  {
  }

  lemma WalkStep<K, V>(sn: Snap<K, V>, cell: Store<K, V>, pc: Pc<K, V>)
    requires Sound(sn) && pc.Walk? && !pc.op.Rehash? && LocalOk(sn, cell, pc)
    ensures Steps(sn, cell, pc)
  {
    match pc.op {
      case Insert(_, _) => WalkInsert(sn, pc);
      case InsertOrAssign(_, _) => WalkAssign(sn, pc);
      case Erase(_) => WalkErase(sn, pc);
      case Find(_) => WalkFind(sn, pc);
    }
  }

  lemma AppendStep<K, V>(sn: Snap<K, V>, cell: Store<K, V>, pc: Pc<K, V>)
    requires Sound(sn) && pc.Append? && !pc.op.Rehash? && LocalOk(sn, cell, pc)
    ensures Steps(sn, cell, pc)
  {
    if pc.stage == 5 {
      AppendStages(sn.store, pc.tail, pc.op.k, pc.op.v);
      assert AppendWrite(cell, pc.tail, pc.fresh_, pc.op.k, pc.op.v, 5) == Appended(sn.store, pc.tail, pc.op.k, pc.op.v);
      GrowsFinished(sn, pc.op);
    }
  }

  lemma GrowsFinished<K, V>(sn: Snap<K, V>, op: Op<K, V>)
    requires Sound(sn) && !op.Rehash? && Grows(sn, op) && 0 <= sn.store.free < |sn.store.nodes| && InRange(Tail(sn.live), |sn.store.nodes|)
    ensures Finished(sn, Appended(sn.store, Tail(sn.live), op.k, op.v), op, Added)
  {
    assert AfterOp(sn, op) == Grown(sn, op.k, op.v);
    FreeInRange(sn);
  }

  lemma AssignStep<K, V>(sn: Snap<K, V>, cell: Store<K, V>, pc: Pc<K, V>)
    requires Sound(sn) && pc.Assign? && !pc.op.Rehash? && LocalOk(sn, cell, pc)
    ensures Steps(sn, cell, pc)
  {
    Looked(sn, pc.op.k, pc.pos);
  }

  lemma UnlinkLast<K, V>(sn: Snap<K, V>, op: Op<K, V>, prev: int, ind: int, pos: nat)
    requires Sound(sn) && op.Erase? && pos == FirstWith(Held(sn), op.k) < |sn.live|
    requires ind == sn.live[pos] && prev == Previous(sn.live, pos)
    requires 0 <= ind < |sn.store.nodes| && InRange(prev, |sn.store.nodes|)
    ensures Finished(sn, UnlinkStage(sn.store, prev, ind, 5), op, Removed(true))
  {
    UnlinkStages(sn.store, prev, ind);
    assert AfterOp(sn, op) == Shrunk(sn, pos);
  }

  lemma UnlinkOn<K, V>(sn: Snap<K, V>, cell: Store<K, V>, pc: Pc<K, V>)
    requires Sound(sn) && pc.Unlink? && pc.stage < 4 && !pc.op.Rehash? && LocalOk(sn, cell, pc)
    ensures Steps(sn, cell, pc)
  {
    assert UnlinkStage(sn.store, pc.prev, pc.ind, pc.stage + 1) == UnlinkWrite(cell, pc.prev, pc.ind, pc.stage);
  }

  lemma UnlinkStep<K, V>(sn: Snap<K, V>, cell: Store<K, V>, pc: Pc<K, V>)
    requires Sound(sn) && pc.Unlink? && !pc.op.Rehash? && LocalOk(sn, cell, pc)
    ensures Steps(sn, cell, pc)
  {
    if pc.stage == 4 {
      UnlinkLast(sn, pc.op, pc.prev, pc.ind, pc.pos);
      var r := Executed(cell, pc);
      assert r.0 == UnlinkStage(sn.store, pc.prev, pc.ind, 5) && r.1 == Count(pc.op, Removed(true));
      assert LocalOk(sn, r.0, r.1);
    } else {
      UnlinkOn(sn, cell, pc);
    }
  }

  /** One instruction keeps `LocalOk`, and touches no node outside the bucket. */
  lemma BucketStep<K, V>(sn: Snap<K, V>, cell: Store<K, V>, pc: Pc<K, V>)
    requires Sound(sn) && InBucket(pc) && !pc.op.Rehash? && LocalOk(sn, cell, pc)
    ensures Steps(sn, cell, pc)
  {
    match pc {
      case Enter(op) => EnterStep(sn, cell, pc);
      case Walk(op, ind, prev, pos) => WalkStep(sn, cell, pc);
      case Append(op, tail, f, stage) => AppendStep(sn, cell, pc);
      case Assign(op, ind, pos) => AssignStep(sn, cell, pc);
      case Unlink(op, prev, ind, stage, pos) => UnlinkStep(sn, cell, pc);
    }
  }
}
