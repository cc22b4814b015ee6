/** What one bucket of `experimental::Map` means: a chain of entries in insertion order,
    and the four bucket operations as functions of that chain.

    A chain is read left to right, so the first entry with a key answers for that key. */
module Chains {
  import opened Wrappers

  datatype Entry<K, V> = Entry(key: K, value: V)

  type Chain<K, V> = seq<Entry<K, V>>

  /** How an insertion ended.  The source answers with a pair: the node reached (or the sentinel
      end node when the bucket is full) and whether a node was added. */
  datatype Outcome = Inserted(at: nat) | Existing(at: nat) | Full

  /** Position of the first entry with key `k`, or the length of the chain. */
  function FirstWith<K(==), V>(c: Chain<K, V>, k: K): (i: nat)
    ensures i <= |c|
    ensures forall j :: 0 <= j < i ==> c[j].key != k
    ensures i < |c| ==> c[i].key == k
  {
    if c == [] || c[0].key == k then 0 else 1 + FirstWith(c[1..], k)
  }

  predicate HasKey<K(==), V>(c: Chain<K, V>, k: K) {
    FirstWith(c, k) < |c|
  }

  function Lookup<K(==), V>(c: Chain<K, V>, k: K): Option<V> {
    var i := FirstWith(c, k);
    if i < |c| then Some(c[i].value) else None
  }

  /** `insert_no_update`: the walk stops at the last node without comparing its key. */
  function InsertNoUpdate<K(==), V>(c: Chain<K, V>, capacity: nat, k: K, v: V): (Chain<K, V>, Outcome) {
    var i := FirstWith(c, k);
    if |c| >= capacity then (c, Full)
    else if i + 1 < |c| then (c, Existing(i))
    else (c + [Entry(k, v)], Inserted(|c|))
  }

  /** `insert_update`: every node is compared, and a full bucket still accepts an assignment. */
  function InsertUpdate<K(==), V>(c: Chain<K, V>, capacity: nat, k: K, v: V): (Chain<K, V>, Outcome) {
    var i := FirstWith(c, k);
    if i < |c| then (c[i := Entry(k, v)], Existing(i))
    else if |c| < capacity then (c + [Entry(k, v)], Inserted(|c|))
    else (c, Full)
  }

  /** `remove`: unlinks the first node with the key. */
  function Remove<K(==), V>(c: Chain<K, V>, k: K): (Chain<K, V>, bool) {
    var i := FirstWith(c, k);
    if i < |c| then (c[..i] + c[i + 1..], true) else (c, false)
  }

  // ---------- Invariants of a chain ----------

  ghost predicate UniqueKeys<K, V>(c: Chain<K, V>) {
    forall i, j :: 0 <= i < j < |c| ==> c[i].key != c[j].key
  }

  /** The strongest fact every operation keeps, the unchecked tail included: a key occurs at most
      twice, and its two occurrences are neighbours. */
  ghost predicate NearlyUnique<K, V>(c: Chain<K, V>) {
    forall i, j :: 0 <= i < j < |c| && c[i].key == c[j].key ==> j == i + 1
  }

  /** The one situation in which `insert_no_update` duplicates a key: the bucket has room and the key
      sits in the last node. */
  predicate HitsTail<K(==), V>(c: Chain<K, V>, capacity: nat, k: K) {
    0 < |c| < capacity && c[|c| - 1].key == k
  }

  /** `insert_no_update` keeps keys unique exactly when it does not hit the tail. */
  lemma InsertNoUpdateUniqueIff<K, V>(c: Chain<K, V>, capacity: nat, k: K, v: V)
    requires UniqueKeys(c)
    ensures UniqueKeys(InsertNoUpdate(c, capacity, k, v).0) <==> !HitsTail(c, capacity, k)
  {
    var d := InsertNoUpdate(c, capacity, k, v).0;
    if HitsTail(c, capacity, k) {
      assert FirstWith(c, k) == |c| - 1;
      assert d[|c| - 1].key == d[|c|].key;
    }
  }

  /** The smallest failing run: two inserts of one key into an empty bucket of length two. */
  lemma InsertTwiceDuplicates(k: int, v: int, w: int)
    ensures var once := InsertNoUpdate([], 2, k, v).0;
            InsertNoUpdate(once, 2, k, w) == ([Entry(k, v), Entry(k, w)], Inserted(1))
  {
    var once := InsertNoUpdate([], 2, k, v).0;
    assert once == [Entry(k, v)];
    assert once + [Entry(k, w)] == [Entry(k, v), Entry(k, w)];
  }

  lemma InsertNoUpdateNearlyUnique<K, V>(c: Chain<K, V>, capacity: nat, k: K, v: V)
    requires NearlyUnique(c)
    ensures NearlyUnique(InsertNoUpdate(c, capacity, k, v).0)
  {
  }

  lemma InsertUpdateKeeps<K, V>(c: Chain<K, V>, capacity: nat, k: K, v: V)
    ensures UniqueKeys(c) ==> UniqueKeys(InsertUpdate(c, capacity, k, v).0)
    ensures NearlyUnique(c) ==> NearlyUnique(InsertUpdate(c, capacity, k, v).0)
  {
    var i := FirstWith(c, k);
    var d := InsertUpdate(c, capacity, k, v).0;
    if i < |c| {
      assert forall j :: 0 <= j < |c| ==> d[j].key == c[j].key;
    }
  }

  lemma RemoveKeeps<K, V>(c: Chain<K, V>, k: K)
    ensures UniqueKeys(c) ==> UniqueKeys(Remove(c, k).0)
    ensures NearlyUnique(c) ==> NearlyUnique(Remove(c, k).0)
  {
    var i := FirstWith(c, k);
    var d := Remove(c, k).0;
    if i < |c| {
      assert forall j :: 0 <= j < i ==> d[j] == c[j];
      assert forall j :: i <= j < |d| ==> d[j] == c[j + 1];
      if NearlyUnique(c) {
        forall a, b | 0 <= a < b < |d| && d[a].key == d[b].key ensures b == a + 1 {
          var a', b' := if a < i then a else a + 1, if b < i then b else b + 1;
          assert c[a'].key == c[b'].key;
        }
      }
    }
  }

  // ---------- What each operation does to every lookup ----------

  lemma InsertUpdateLookup<K, V>(c: Chain<K, V>, capacity: nat, k: K, v: V, x: K)
    ensures var (d, o) := InsertUpdate(c, capacity, k, v);
            Lookup(d, x) == if x == k && !o.Full? then Some(v) else Lookup(c, x)
  {
    var i := FirstWith(c, k);
    var d := InsertUpdate(c, capacity, k, v).0;
    if i < |c| {
      assert forall j :: 0 <= j < |c| ==> d[j].key == c[j].key;
      SameFirst(c, d, x);
    } else if |c| < capacity {
      AppendLookup(c, Entry(k, v), x);
    }
  }

  lemma InsertNoUpdateLookup<K, V>(c: Chain<K, V>, capacity: nat, k: K, v: V, x: K)
    ensures var (d, o) := InsertNoUpdate(c, capacity, k, v);
            Lookup(d, x) == if x == k && o.Inserted? && !HasKey(c, k) then Some(v) else Lookup(c, x)
  {
    AppendLookup(c, Entry(k, v), x);
  }

  lemma {:induction false} RemoveLookup<K, V>(c: Chain<K, V>, k: K, x: K)
    requires x == k ==> UniqueKeys(c)
    ensures Lookup(Remove(c, k).0, x) == if x == k then None else Lookup(c, x)
  {
    var i := FirstWith(c, k);
    if i < |c| {
      var d := c[..i] + c[i + 1..];
      assert forall j :: 0 <= j < |d| ==> d[j] == c[if j < i then j else j + 1];
      var p, q := FirstWith(c, x), FirstWith(d, x);
      if x != k && p < |c| {
        assert d[if p < i then p else p - 1] == c[p];
      }
    }
  }

  /** Erasing a key removes it from every later lookup exactly when it occurs once. */
  lemma RemoveForgetsIff<K, V>(c: Chain<K, V>, k: K)
    requires NearlyUnique(c) && HasKey(c, k)
    ensures var i := FirstWith(c, k);
            Lookup(Remove(c, k).0, k) == None <==> !(i + 1 < |c| && c[i + 1].key == k)
  {
    var i := FirstWith(c, k);
    var d := Remove(c, k).0;
    assert forall j :: 0 <= j < |d| ==> d[j] == c[if j < i then j else j + 1];
    if i + 1 < |c| { assert d[i] == c[i + 1]; }
  }

  lemma SameFirst<K, V>(c: Chain<K, V>, d: Chain<K, V>, x: K)
    requires |c| == |d| && forall j :: 0 <= j < |c| ==> d[j].key == c[j].key
    ensures FirstWith(c, x) == FirstWith(d, x)
  {
    var i, j := FirstWith(c, x), FirstWith(d, x);
    assert i < |c| ==> d[i].key == x;
  }

  lemma AppendLookup<K, V>(c: Chain<K, V>, e: Entry<K, V>, x: K)
    ensures Lookup(c + [e], x) == if HasKey(c, x) then Lookup(c, x) else if e.key == x then Some(e.value) else None
  {
    var d := c + [e];
    assert d[|c|] == e && forall j :: 0 <= j < |c| ==> d[j] == c[j];
    var i, j := FirstWith(c, x), FirstWith(d, x);
  }
}
