/** `experimental::Map`, updated in place, against the functions of `ChainedMapSpec`. */
module ChainedMaps {
  import opened Arithmetic
  import opened Buckets
  import opened Chains
  import opened ChainedMapSpec
  import opened NodeStore
  import opened Wrappers

  /** The buckets are separate objects over separate node blocks, and bucket `i` holds `chains[i]`. */
  ghost predicate Holds<K(0), V(0)>(bs: seq<Bucket<K, V>>, len: nat, chains: seq<Chain<K, V>>)
    reads bs, set b <- bs :: b.list
  {
    && |chains| == |bs|
    && (forall i, j :: 0 <= i < j < |bs| ==> bs[i] != bs[j] && bs[i].list != bs[j].list)
    && (forall i :: 0 <= i < |bs| ==> bs[i].Valid() && bs[i].capacity == len && bs[i].Contents() == chains[i])
  }

  ghost predicate Apart<K(0), V(0)>(bs: seq<Bucket<K, V>>, ts: seq<Bucket<K, V>>) {
    forall i, j :: 0 <= i < |bs| && 0 <= j < |ts| ==> bs[i] != ts[j] && bs[i].list != ts[j].list
  }

  datatype Table<K(0), V(0)> = Table(bs: seq<Bucket<K, V>>, len: nat, chains: seq<Chain<K, V>>)

  /** Changing one bucket changes one chain. */
  twostate lemma OneChanged<K(0), V(0)>(at: (Table<K, V>, nat))
    requires var (t, index) := at;
             && old(Holds(t.bs, t.len, t.chains)) && index < |t.bs|
             && t.bs[index].Valid()
             && forall j :: 0 <= j < |t.bs| && j != index ==> unchanged(t.bs[j]) && unchanged(t.bs[j].list)
    ensures var (t, index) := at;
            Holds(t.bs, t.len, t.chains[index := t.bs[index].Contents()])
  {
    var (t, index) := at;
    forall j | 0 <= j < |t.bs| && j != index ensures t.bs[j].Valid() && t.bs[j].Contents() == t.chains[j] {
      assert old(t.bs[j].Valid()) && old(t.bs[j].Contents()) == t.chains[j];
    }
  }

  twostate lemma NoneChanged<K(0), V(0)>(t: Table<K, V>)
    requires old(Holds(t.bs, t.len, t.chains))
    requires forall j :: 0 <= j < |t.bs| ==> unchanged(t.bs[j]) && unchanged(t.bs[j].list)
    ensures Holds(t.bs, t.len, t.chains)
  {
    forall j | 0 <= j < |t.bs| ensures t.bs[j].Valid() && t.bs[j].Contents() == t.chains[j] {
      assert old(t.bs[j].Valid()) && old(t.bs[j].Contents()) == t.chains[j];
    }
  }

  lemma OneMore<K(0), V(0)>(bs: seq<Bucket<K, V>>, len: nat, chains: seq<Chain<K, V>>, b: Bucket<K, V>)
    requires Holds(bs, len, chains) && b.Valid() && b.capacity == len
    requires forall i :: 0 <= i < |bs| ==> bs[i] != b && bs[i].list != b.list
    ensures Holds(bs + [b], len, chains + [b.Contents()])
  {
    var (bs', chains') := (bs + [b], chains + [b.Contents()]);
    forall i | 0 <= i < |bs'| ensures bs'[i].Valid() && bs'[i].capacity == len && bs'[i].Contents() == chains'[i] {
      if i < |bs| { assert bs'[i] == bs[i]; }
    }
  }

  lemma SizeHeld<K(0), V(0)>(bs: seq<Bucket<K, V>>, len: nat, chains: seq<Chain<K, V>>, i: nat)
    requires Holds(bs, len, chains) && i < |bs|
    ensures bs[i].size == |chains[i]| && bs[i].capacity == len
  {
    assert bs[i].Valid();
  }

  lemma SizesHeld<K(0), V(0)>(bs: seq<Bucket<K, V>>, len: nat, chains: seq<Chain<K, V>>)
    requires Holds(bs, len, chains)
    ensures |bs| == |chains| && forall i :: 0 <= i < |bs| ==> bs[i].size == |chains[i]| && bs[i].capacity == len
  {
    forall i | 0 <= i < |bs| ensures bs[i].size == |chains[i]| && bs[i].capacity == len {
      SizeHeld(bs, len, chains, i);
    }
  }

  lemma AnyFullNext<K, V>(chains: seq<Chain<K, V>>, len: nat, i: nat)
    requires i < |chains|
    ensures AnyFull(chains[..i + 1], len) == (AnyFull(chains[..i], len) || |chains[i]| == len)
  {
    assert forall b :: 0 <= b < i ==> chains[..i][b] == chains[..i + 1][b];
    assert chains[..i + 1][i] == chains[i];
  }

  lemma TakeOneMore<T>(done: seq<T>, c: seq<T>, pos: nat)
    requires pos < |c|
    ensures done + c[..pos + 1] == done + c[..pos] + [c[pos]]
  {
  }

  /** `ind` is the node the outcome of an insertion speaks of, or -1 for the end node. */
  ghost predicate Reaches<K(0), V(0)>(b: Bucket<K, V>, ind: int, o: Outcome)
    reads b
  {
    if o.Full? then ind == -1 else o.at < |b.live| && ind == b.live[o.at]
  }

  class Map<K(==, 0), V(0)> {
    const hash: K -> nat
    var buckets: seq<Bucket<K, V>>
    var bucketCount: nat
    var bucketLen: nat
    var size: int
    var loadFactor: real
    var fill: bool
    /** What the buckets hold. */
    ghost var chains: seq<Chain<K, V>>

    ghost predicate Valid()
      reads this, buckets, set b <- buckets :: b.list
    {
      && |buckets| == bucketCount > 0 && bucketLen > 0
      && Holds(buckets, bucketLen, chains)
    }

    ghost function View(): State<K, V>
      reads this
    {
      State(chains, bucketLen, size, fill)
    }

    static method AllocateOne(bs: seq<Bucket<K, V>>, len: nat) returns (b: Bucket<K, V>)
      requires len > 0 && Holds(bs, len, EmptyChains(|bs|))
      ensures Holds(bs + [b], len, EmptyChains(|bs| + 1))
      ensures fresh(b) && fresh(b.list)
    {
      ghost var chains := EmptyChains<K, V>(|bs|);
      b := new Bucket<K, V>(len);
      NoneChanged(Table(bs, len, chains));
      OneMore(bs, len, chains, b);
      assert chains + [b.Contents()] == EmptyChains(|bs| + 1);
    }

    /** `alloc_map` */
    static method Allocate(count: nat, len: nat) returns (bs: seq<Bucket<K, V>>)
      requires len > 0
      ensures |bs| == count && Holds(bs, len, EmptyChains(count))
      ensures forall b :: b in bs ==> fresh(b) && fresh(b.list)
    {
      bs := [];
      for n := 0 to count
        invariant |bs| == n && Holds(bs, len, EmptyChains(|bs|))
        invariant forall b :: b in bs ==> fresh(b) && fresh(b.list)
      {
        var b := AllocateOne(bs, len);
        bs := bs + [b];
      }
    }

    constructor (numBuckets: nat, len: nat, hash: K -> nat)
      requires numBuckets > 0 && len > 0
      ensures Valid() && this.hash == hash && loadFactor == 0.0
      ensures View() == Empty(numBuckets, len)
    {
      this.hash := hash;
      bucketCount, bucketLen, size, loadFactor, fill := numBuckets, len, 0, 0.0, false;
      var bs := Allocate(numBuckets, len);
      buckets := bs;
      chains := EmptyChains(numBuckets);
    }

    function Index(key: K): (i: nat)
      requires bucketCount > 0
      reads `bucketCount
      ensures i < bucketCount
    {
      BucketOf(hash, bucketCount, key)
    }

    /** The locked part of `insert`: the target bucket, the counter and the flag change. */
    method InsertInBucket(index: nat, key: K, value: V) returns (ind: int, added: bool)
      requires Holds(buckets, bucketLen, chains) && index < |buckets|
      modifies this`size, this`fill, this`chains, buckets, set b <- buckets :: b.list
      ensures Holds(buckets, bucketLen, chains)
      ensures var (c, o) := Chains.InsertNoUpdate(old(chains)[index], bucketLen, key, value);
              && Counted(old(View()), View(), index, c, o)
              && added == o.Inserted? && Reaches(buckets[index], ind, o)
      ensures InsertAnswer(buckets[index].View(), buckets[index].live, old(chains)[index], ind, added, key, value)
    {
      ind, added := buckets[index].InsertNoUpdate(key, value);
      assert buckets[index].Valid();
      if added {
        size := size + 1;
        if buckets[index].size == buckets[index].capacity {
          fill := true;
        }
      }
      chains := chains[index := buckets[index].Contents()];
      OneChanged((Table(buckets, bucketLen, old(chains)), index));
    }

    method AssignInBucket(index: nat, key: K, value: V) returns (ind: int, added: bool)
      requires Holds(buckets, bucketLen, chains) && index < |buckets|
      modifies this`size, this`fill, this`chains, buckets, set b <- buckets :: b.list
      ensures Holds(buckets, bucketLen, chains)
      ensures var (c, o) := Chains.InsertUpdate(old(chains)[index], bucketLen, key, value);
              && Counted(old(View()), View(), index, c, o)
              && added == o.Inserted? && Reaches(buckets[index], ind, o)
      ensures AssignAnswer(buckets[index].View(), buckets[index].live, old(chains)[index], ind, added, key, value)
    {
      ind, added := buckets[index].InsertUpdate(key, value);
      assert buckets[index].Valid();
      if added {
        size := size + 1;
        if buckets[index].size == buckets[index].capacity {
          fill := true;
        }
      }
      chains := chains[index := buckets[index].Contents()];
      OneChanged((Table(buckets, bucketLen, old(chains)), index));
    }

    method RemoveInBucket(index: nat, key: K) returns (found: bool)
      requires Holds(buckets, bucketLen, chains) && index < |buckets|
      modifies this`size, this`chains, buckets, set b <- buckets :: b.list
      ensures Holds(buckets, bucketLen, chains)
      ensures var (c, r) := Chains.Remove(old(chains)[index], key);
              chains == old(chains)[index := c] && found == r && size == old(size) - if found then 1 else 0
    {
      found := buckets[index].Remove(key);
      if found { size := size - 1; }
      chains := chains[index := buckets[index].Contents()];
      OneChanged((Table(buckets, bucketLen, old(chains)), index));
    }

    method Insert(key: K, value: V) returns (ind: int, added: bool)
      requires Valid()
      modifies this`size, this`fill, this`chains, buckets, set b <- buckets :: b.list
      ensures Valid()
      ensures var (t, o) := InsertStep(hash, old(View()), key, value);
              View() == t && added == o.Inserted? && Reaches(buckets[Index(key)], ind, o)
      ensures var (b, c) := (buckets[Index(key)], old(chains)[Index(key)]);
              InsertAnswer(b.View(), b.live, c, ind, added, key, value)
    {
      var index := Index(key);
      ghost var s := View();
      ind, added := InsertInBucket(index, key, value);
      assert Valid() && Index(key) == index;
      InsertStepIs(hash, s, key, value, View());
    }

    method InsertOrAssign(key: K, value: V) returns (ind: int, added: bool)
      requires Valid()
      modifies this`size, this`fill, this`chains, buckets, set b <- buckets :: b.list
      ensures Valid()
      ensures var (t, o) := AssignStep(hash, old(View()), key, value);
              View() == t && added == o.Inserted? && Reaches(buckets[Index(key)], ind, o)
      ensures var (b, c) := (buckets[Index(key)], old(chains)[Index(key)]);
              AssignAnswer(b.View(), b.live, c, ind, added, key, value)
    {
      var index := Index(key);
      ghost var s := View();
      ind, added := AssignInBucket(index, key, value);
      assert Valid() && Index(key) == index;
      AssignStepIs(hash, s, key, value, View());
    }

    method Erase(key: K) returns (found: bool)
      requires Valid()
      modifies this`size, this`chains, buckets, set b <- buckets :: b.list
      ensures Valid()
      ensures View() == EraseStep(hash, old(View()), key).0
      ensures found == EraseStep(hash, old(View()), key).1
    {
      var index := Index(key);
      ghost var s := View();
      found := RemoveInBucket(index, key);
      EraseStepIs(hash, s, key, View());
    }

    /** The value in the node found; `None` stands for the end node. */
    method Find(key: K) returns (r: Option<V>)
      requires Valid()
      ensures r == Lookup(Home(hash, View(), key), key)
    {
      var target := buckets[Index(key)];
      var ind := target.Find(key);
      if ind == -1 {
        return None;
      }
      return Some(target.list[ind].value);
    }

    /** Re-inserts one entry after the entries `done`. */
    method MoveEntry(key: K, value: V, target: seq<Bucket<K, V>>, len: nat, ghost done: Chain<K, V>)
      requires |target| > 0 && Holds(target, len, Spread(hash, done, |target|, len))
      modifies target, set b <- target :: b.list
      ensures Holds(target, len, Spread(hash, done + [Entry(key, value)], |target|, len))
    {
      SpreadSnoc(hash, done, Entry(key, value), |target|, len);
      InsertInto(target, BucketOf(hash, |target|, key), key, value, len, Spread(hash, done, |target|, len));
    }

    static method InsertInto(target: seq<Bucket<K, V>>, index: nat, key: K, value: V, len: nat, ghost held: seq<Chain<K, V>>)
      requires Holds(target, len, held) && index < |target|
      modifies target, set b <- target :: b.list
      ensures Holds(target, len, held[index := Chains.InsertNoUpdate(held[index], len, key, value).0])
    {
      var _, _ := target[index].InsertNoUpdate(key, value);
      OneChanged((Table(target, len, held), index));
    }

    /** One turn of the inner loop of `rehash`: re-inserts the node at position `pos` and steps along. */
    method MoveNode(source: Bucket<K, V>, ind: int, target: seq<Bucket<K, V>>, len: nat, ghost done: Chain<K, V>, ghost pos: nat)
      returns (next: int)
      requires source.Valid() && pos < |source.live| && ind == source.live[pos]
      requires |target| > 0 && Holds(target, len, Spread(hash, done, |target|, len)) && Apart([source], target)
      modifies target, set b <- target :: b.list
      ensures unchanged(source) && unchanged(source.list)
      ensures Holds(target, len, Spread(hash, done + [old(source.Contents())[pos]], |target|, len))
      ensures next == if pos + 1 < |source.live| then source.live[pos + 1] else -1
    {
      NextOnChain(source.View(), source.live, source.unused, pos);
      var node := source.list[ind];
      assert [source][0] == source;
      MoveEntry(node.key, node.value, target, len, done);
      next := source.list[ind].next;
    }

    /** The inner loop of `rehash`: re-inserts the entries of one old bucket, in chain order.  `done` are
        the entries re-inserted before. */
    method MoveEntries(source: Bucket<K, V>, target: seq<Bucket<K, V>>, len: nat, ghost done: Chain<K, V>)
      requires source.Valid() && |target| > 0 && Apart([source], target)
      requires Holds(target, len, Spread(hash, done, |target|, len))
      modifies target, set b <- target :: b.list
      ensures Holds(target, len, Spread(hash, done + old(source.Contents()), |target|, len))
    {
      ghost var c := source.Contents();
      ghost var pos := 0;
      var ind := source.head;
      assert done + c[..0] == done;
      while ind != -1
        invariant unchanged(source) && unchanged(source.list)
        invariant 0 <= pos <= |c| && ind == if pos < |c| then source.live[pos] else -1
        invariant Holds(target, len, Spread(hash, done + c[..pos], |target|, len))
        decreases |c| - pos
      {
        TakeOneMore(done, c, pos);
        ind := MoveNode(source, ind, target, len, done + c[..pos], pos);
        pos := pos + 1;
      }
      assert c[..pos] == c;
    }

    /** One turn of the outer loop of `rehash`; the old buckets stay as they are. */
    method MoveBucket(i: nat, target: seq<Bucket<K, V>>)
      requires Holds(buckets, bucketLen, chains) && i < |buckets| && |target| > 0
      requires Holds(target, bucketLen, Spread(hash, All(chains[..i]), |target|, bucketLen))
      requires Apart(buckets, target)
      modifies target, set b <- target :: b.list
      ensures Holds(target, bucketLen, Spread(hash, All(chains[..i + 1]), |target|, bucketLen))
      ensures Holds(buckets, bucketLen, chains)
    {
      assert chains[..i + 1][..i] == chains[..i];
      assert buckets[i].Valid() && buckets[i].Contents() == chains[i] && [buckets[i]][0] == buckets[i];
      MoveEntries(buckets[i], target, bucketLen, All(chains[..i]));
      NoneChanged(Table(buckets, bucketLen, chains));
    }

    /** The outer loop of `rehash`: fills `newCount` fresh buckets. */
    method Rebuild(newCount: nat) returns (target: seq<Bucket<K, V>>)
      requires Valid() && newCount > 0
      ensures Holds(target, bucketLen, Spread(hash, All(chains), newCount, bucketLen))
    {
      target := Allocate(newCount, bucketLen);
      assert Apart(buckets, target);
      NoneChanged(Table(buckets, bucketLen, chains));
      for i := 0 to bucketCount
        invariant Holds(buckets, bucketLen, chains)
        invariant Holds(target, bucketLen, Spread(hash, All(chains[..i]), newCount, bucketLen))
        invariant forall b :: b in target ==> fresh(b) && fresh(b.list)
      {
        MoveBucket(i, target);
      }
      assert chains[..|chains|] == chains;
    }

    /** The final loop of `rehash`: whether some bucket is full. */
    static method FindFull(bs: seq<Bucket<K, V>>, len: nat, ghost held: seq<Chain<K, V>>) returns (full: bool)
      requires |bs| == |held| && forall i :: 0 <= i < |bs| ==> bs[i].size == |held[i]| && bs[i].capacity == len
      ensures full == AnyFull(held, len)
    {
      full := false;
      for i := 0 to |bs|
        invariant full == AnyFull(held[..i], len)
      {
        if bs[i].size == bs[i].capacity {
          full := true;
        }
        AnyFullNext(held, len, i);
      }
      assert held[..|held|] == held;
    }

    method Install(target: seq<Bucket<K, V>>, full: bool, ghost held: seq<Chain<K, V>>)
      requires Holds(target, bucketLen, held)
      modifies this`buckets, this`bucketCount, this`fill, this`chains
      ensures Holds(buckets, bucketLen, chains) && chains == held
      ensures bucketCount == |buckets| && fill == full
    {
      buckets, bucketCount, fill, chains := target, |target|, full, held;
      NoneChanged(Table(target, bucketLen, held));
    }

    /** `rehash`.  The asserts of the source ask for a larger count, a factor above one, or neither.  The answer is that of
        `check_rehash`: whether the map should be rehashed again. */
    method Rehash(count: int, factor: int) returns (again: bool)
      requires Valid()
      requires count > bucketCount || factor > 1 || (count == -1 && factor == -1)
      modifies this
      ensures Valid() && loadFactor == old(loadFactor)
      ensures bucketCount == NewCount(old(bucketCount), count, factor)
      ensures bucketCount == if count > old(bucketCount) then count else (if factor > 1 then factor else 2) * old(bucketCount)
      ensures View() == RehashStep(hash, old(View()), bucketCount)
      ensures again == CheckRehash(size, bucketCount, loadFactor, fill)
    {
      var newCount := NewCount(bucketCount, count, factor);
      ghost var held := RehashStep(hash, View(), newCount).chains;
      var target := Rebuild(newCount);
      SizesHeld(target, bucketLen, held);
      var full := FindFull(target, bucketLen, held);
      Install(target, full, held);
      again := CheckRehash(size, bucketCount, loadFactor, fill);
    }
  }
}
