/** Theorems about `experimental::Map`: what every run keeps, when it is a finite map, and what a rehash
    loses. */
module ChainedMapTheorems {
  import opened Arithmetic
  import opened Chains
  import opened ChainedMapSpec
  import opened Wrappers

  // ---------- Rehash ----------

  /** The entries of `c` that belong to bucket `b` out of `count`, in order. */
  function Select<K, V>(hash: Hash<K>, c: Chain<K, V>, count: nat, b: nat): Chain<K, V>
    requires count > 0
  {
    if c == [] then []
    else
      var (rest, e) := (c[..|c| - 1], c[|c| - 1]);
      Select(hash, rest, count, b) + if BucketOf(hash, count, e.key) == b then [e] else []
  }

  function Truncated<K, V>(c: Chain<K, V>, len: nat): Chain<K, V> {
    if |c| <= len then c else c[..len]
  }

  lemma {:induction false} SelectFrom<K, V>(hash: Hash<K>, c: Chain<K, V>, count: nat, b: nat)
    requires count > 0
    ensures |Select(hash, c, count, b)| <= |c|
    ensures var chosen := Select(hash, c, count, b);
            forall i :: 0 <= i < |chosen| ==> chosen[i] in c && BucketOf(hash, count, chosen[i].key) == b
  {
    if c != [] {
      SelectFrom(hash, c[..|c| - 1], count, b);
    }
  }

  lemma {:induction false} SelectConcat<K, V>(hash: Hash<K>, c: Chain<K, V>, d: Chain<K, V>, count: nat, b: nat)
    requires count > 0
    ensures Select(hash, c + d, count, b) == Select(hash, c, count, b) + Select(hash, d, count, b)
  {
    if d == [] {
      assert c + d == c;
    } else {
      var n := |d| - 1;
      SelectConcat(hash, c, d[..n], count, b);
      assert (c + d)[..|c| + n] == c + d[..n];
    }
  }

  lemma {:induction false} SelectNearlyUnique<K, V>(hash: Hash<K>, c: Chain<K, V>, count: nat, b: nat)
    requires count > 0 && NearlyUnique(c)
    ensures NearlyUnique(Select(hash, c, count, b))
  {
    if |c| > 1 {
      var n := |c| - 1;
      var (rest, e) := (c[..n], c[n]);
      SelectNearlyUnique(hash, rest, count, b);
      var earlier := Select(hash, rest[..n - 1], count, b);
      SelectFrom(hash, rest[..n - 1], count, b);
      forall i | 0 <= i < |earlier| ensures earlier[i].key != e.key {
        assert earlier[i] in rest[..n - 1];
      }
    }
  }

  /** The exact result of re-inserting: every new chain is the order-preserving sub-chain of the entries
      that belong there, cut at the bucket length. */
  lemma {:induction false} SpreadIs<K, V>(hash: Hash<K>, entries: Chain<K, V>, count: nat, len: nat, b: nat)
    requires count > 0 && NearlyUnique(entries) && b < count
    ensures Spread(hash, entries, count, len)[b] == Truncated(Select(hash, entries, count, b), len)
  {
    if entries != [] {
      var n := |entries| - 1;
      var (rest, e) := (entries[..n], entries[n]);
      SpreadIs(hash, rest, count, len, b);
      if BucketOf(hash, count, e.key) == b {
        SelectNearlyUnique(hash, entries, count, b);
        var kept := Select(hash, rest, count, b);
        var all := kept + [e];
        assert all == Select(hash, entries, count, b);
        assert forall i :: 0 <= i < |kept| ==> all[i] == kept[i];
        if |kept| < len {
          assert FirstWith(kept, e.key) + 1 >= |kept| by {
            var i := FirstWith(kept, e.key);
            if i < |kept| { assert all[i].key == all[|kept|].key; }
          }
        }
      }
    }
  }

  lemma {:induction false} AllFrom<K, V>(hash: Hash<K>, chains: seq<Chain<K, V>>, n: nat, count: nat)
    requires n <= |chains| && count > 0
    requires forall b, i :: 0 <= b < |chains| && 0 <= i < |chains[b]| ==> BucketOf(hash, count, chains[b][i].key) == b
    ensures forall i :: 0 <= i < |All(chains[..n])| ==> BucketOf(hash, count, All(chains[..n])[i].key) < n
  {
    if n > 0 {
      assert chains[..n][..n - 1] == chains[..n - 1];
      AllFrom(hash, chains, n - 1, count);
    }
  }

  lemma {:induction false} AllNearlyUnique<K, V>(hash: Hash<K>, s: State<K, V>, n: nat)
    requires Kept(hash, s) && n <= |s.chains|
    ensures NearlyUnique(All(s.chains[..n]))
  {
    if n > 0 {
      assert s.chains[..n][..n - 1] == s.chains[..n - 1];
      AllNearlyUnique(hash, s, n - 1);
      AllFrom(hash, s.chains, n - 1, |s.chains|);
      var (front, last) := (All(s.chains[..n - 1]), s.chains[n - 1]);
      var all := front + last;
      forall i, j | 0 <= i < j < |all| && all[i].key == all[j].key ensures j == i + 1 {
        assert j >= |front| ==> BucketOf(hash, |s.chains|, last[j - |front|].key) == n - 1;
        if j < |front| {
          assert front[i].key == front[j].key;
        } else if i >= |front| {
          assert last[i - |front|].key == last[j - |front|].key;
        }
      }
    }
  }

  /** A rehash to any number of buckets, exactly. Earlier rehashes may have lost entries. */
  lemma RehashIs<K, V>(hash: Hash<K>, s: State<K, V>, count: nat, b: nat)
    requires Kept(hash, s) && count > 0 && b < count
    ensures RehashStep(hash, s, count).chains[b] == Truncated(Select(hash, All(s.chains), count, b), s.len)
  {
    assert s.chains[..|s.chains|] == s.chains;
    AllNearlyUnique(hash, s, |s.chains|);
    SpreadIs(hash, All(s.chains), count, s.len, b);
  }

  /** Every entry that belongs to a new bucket is in it. */
  ghost predicate Lossless<K, V>(hash: Hash<K>, s: State<K, V>, count: nat)
    requires count > 0
  {
    forall b :: 0 <= b < count ==> RehashStep(hash, s, count).chains[b] == Select(hash, All(s.chains), count, b)
  }

  /** No new bucket is asked to hold more than a bucket can: a count that can be made before the call. */
  ghost predicate FitsAfter<K, V>(hash: Hash<K>, s: State<K, V>, count: nat)
    requires count > 0
  {
    forall b :: 0 <= b < count ==> |Select(hash, All(s.chains), count, b)| <= s.len
  }

  lemma RehashLosslessIff<K, V>(hash: Hash<K>, s: State<K, V>, count: nat)
    requires Kept(hash, s) && count > 0
    ensures Lossless(hash, s, count) <==> FitsAfter(hash, s, count)
  {
    forall b | 0 <= b < count
      ensures RehashStep(hash, s, count).chains[b] == Truncated(Select(hash, All(s.chains), count, b), s.len)
    {
      RehashIs(hash, s, count, b);
    }
  }

  /** After a rehash the flag is set exactly when some new bucket was asked to hold as many entries as it can, or more. */
  lemma RehashFlagIff<K, V>(hash: Hash<K>, s: State<K, V>, count: nat)
    requires Kept(hash, s) && count > 0
    ensures RehashStep(hash, s, count).fill <==>
      exists b :: 0 <= b < count && |Select(hash, All(s.chains), count, b)| >= s.len
  {
    var t := RehashStep(hash, s, count);
    forall b | 0 <= b < count ensures |t.chains[b]| == s.len <==> |Select(hash, All(s.chains), count, b)| >= s.len {
      RehashIs(hash, s, count, b);
    }
    if t.fill {
      var b :| 0 <= b < |t.chains| && |t.chains[b]| == s.len;
      assert |Select(hash, All(s.chains), count, b)| >= s.len;
    }
  }

  /** A rehash that loses an entry: keys 0 and 3 leave two buckets of length one for bucket 0 of three. */
  lemma RehashCanLose(v: int, w: int)
    ensures var hash := (k: int) => if k < 0 then 0 else k;
            var s := State([[Entry(0, v)], [Entry(3, w)]], 1, 2, true);
            Inv(hash, s) && RehashStep(hash, s, 3).chains == [[Entry(0, v)], [], []]
  {
    TwoBuckets(v, w);
    SpreadCanLose(v, w);
  }

  lemma TwoBuckets(v: int, w: int)
    ensures var hash := (k: int) => if k < 0 then 0 else k;
            var chains := [[Entry(0, v)], [Entry(3, w)]];
            Inv(hash, State(chains, 1, 2, true)) && All(chains) == [Entry(0, v), Entry(3, w)]
  {
    var chains := [[Entry(0, v)], [Entry(3, w)]];
    assert chains[..1] == [[Entry(0, v)]] && chains[..1][..0] == [];
    assert Total(chains[..1][..0]) == 0 && Total(chains[..1]) == 1;
    assert All(chains[..1][..0]) == [] && All(chains[..1]) == [Entry(0, v)];
  }

  lemma SpreadCanLose(v: int, w: int)
    ensures var hash := (k: int) => if k < 0 then 0 else k;
            Spread(hash, [Entry(0, v), Entry(3, w)], 3, 1) == [[Entry(0, v)], [], []]
  {
    var hash := (k: int) => if k < 0 then 0 else k;
    var all := [Entry(0, v), Entry(3, w)];
    assert all[..1] == [Entry(0, v)] && all[..1][..0] == [];
    var none := Spread(hash, all[..1][..0], 3, 1);
    assert none == [[], [], []];
    assert Chains.InsertNoUpdate([], 1, 0, v).0 == [Entry(0, v)];
    assert Spread(hash, all[..1], 3, 1) == none[0 := [Entry(0, v)]];
    assert none[0 := [Entry(0, v)]] == [[Entry(0, v)], [], []];
  }

  /** For a multiple of the old count, an old bucket with another index has nothing for a new one. */
  lemma SelectNothing<K, V>(hash: Hash<K>, s: State<K, V>, f: nat, b: nat, i: nat)
    requires Kept(hash, s) && f > 0 && i < |s.chains| && b % |s.chains| != i
    ensures f * |s.chains| > 0 && Select(hash, s.chains[i], f * |s.chains|, b) == []
  {
    ModOfMultiple(0, |s.chains|, f);
    var chosen := Select(hash, s.chains[i], f * |s.chains|, b);
    SelectFrom(hash, s.chains[i], f * |s.chains|, b);
    if chosen != [] {
      ModOfMultiple(hash(chosen[0].key), |s.chains|, f);
      assert false;
    }
  }

  lemma {:induction false} SelectOnly<K, V>(hash: Hash<K>, chains: seq<Chain<K, V>>, count: nat, b: nat, home: nat)
    requires count > 0 && forall i :: 0 <= i < |chains| && i != home ==> Select(hash, chains[i], count, b) == []
    ensures Select(hash, All(chains), count, b) == if home < |chains| then Select(hash, chains[home], count, b) else []
    decreases |chains|
  {
    if chains != [] {
      var (rest, last) := (chains[..|chains| - 1], chains[|chains| - 1]);
      SelectOnly(hash, rest, count, b, home);
      SelectConcat(hash, All(rest), last, count, b);
      var (before, here) := (Select(hash, All(rest), count, b), Select(hash, last, count, b));
      assert Select(hash, All(chains), count, b) == before + here;
      assert home == |rest| ==> before == [] && before + here == here;
      assert home != |rest| ==> here == [] && before + here == before;
    }
  }

  /** For a multiple of the old count, a new bucket draws from one old bucket only. */
  lemma SelectOneBucket<K, V>(hash: Hash<K>, s: State<K, V>, f: nat, b: nat)
    requires Kept(hash, s) && f > 0
    ensures var count := f * |s.chains|;
            count > 0 && Select(hash, All(s.chains), count, b) == Select(hash, s.chains[b % |s.chains|], count, b)
  {
    ModOfMultiple(0, |s.chains|, f);
    forall i | 0 <= i < |s.chains| && i != b % |s.chains| ensures Select(hash, s.chains[i], f * |s.chains|, b) == [] {
      SelectNothing(hash, s, f, b, i);
    }
    SelectOnly(hash, s.chains, f * |s.chains|, b, b % |s.chains|);
  }

  /** Rehashing by any factor loses nothing: each new chain is the sub-chain of one old bucket. */
  lemma RehashByFactor<K, V>(hash: Hash<K>, s: State<K, V>, f: nat)
    requires Kept(hash, s) && f > 0
    ensures f * |s.chains| > 0 && FitsAfter(hash, s, f * |s.chains|)
    ensures forall b :: 0 <= b < f * |s.chains| ==>
      RehashStep(hash, s, f * |s.chains|).chains[b] == Select(hash, s.chains[b % |s.chains|], f * |s.chains|, b)
  {
    ModOfMultiple(0, |s.chains|, f);
    var count := f * |s.chains|;
    forall b | 0 <= b < count
      ensures |Select(hash, All(s.chains), count, b)| <= s.len
      ensures RehashStep(hash, s, count).chains[b] == Select(hash, s.chains[b % |s.chains|], count, b)
    {
      SelectOneBucket(hash, s, f, b);
      SelectFrom(hash, s.chains[b % |s.chains|], count, b);
      RehashIs(hash, s, count, b);
    }
  }

  lemma {:induction false} SelectLookup<K, V>(hash: Hash<K>, c: Chain<K, V>, count: nat, k: K)
    requires count > 0
    ensures Lookup(Select(hash, c, count, BucketOf(hash, count, k)), k) == Lookup(c, k)
  {
    if c != [] {
      var (rest, e) := (c[..|c| - 1], c[|c| - 1]);
      var b := BucketOf(hash, count, k);
      SelectLookup(hash, rest, count, k);
      assert c == rest + [e];
      AppendLookup(rest, e, k);
      var chosen := Select(hash, rest, count, b);
      AppendLookup(chosen, e, k);
      assert chosen + [] == chosen;
      assert HasKey(chosen, k) <==> Lookup(chosen, k).Some?;
    }
  }

  lemma NotElsewhere<K, V>(hash: Hash<K>, chains: seq<Chain<K, V>>, i: nat, k: K)
    requires Placed(hash, chains) && i < |chains| && i != BucketOf(hash, |chains|, k)
    ensures Lookup(chains[i], k) == None
  {
  }

  /** A key is found among all entries as it is in its own bucket. */
  lemma {:induction false} AllLookup<K, V>(hash: Hash<K>, chains: seq<Chain<K, V>>, n: nat, k: K)
    requires Placed(hash, chains) && |chains| > 0 && n <= |chains|
    ensures var b := BucketOf(hash, |chains|, k);
            Lookup(All(chains[..n]), k) == if b < n then Lookup(chains[b], k) else None
  {
    if n > 0 {
      var (before, last) := (chains[..n - 1], chains[n - 1]);
      assert chains[..n][..n - 1] == before && chains[..n][n - 1] == last;
      AllLookup(hash, chains, n - 1, k);
      ConcatLookup(All(before), last, k);
      if n - 1 != BucketOf(hash, |chains|, k) { NotElsewhere(hash, chains, n - 1, k); }
    }
  }

  lemma ConcatLookup<K, V>(c: Chain<K, V>, d: Chain<K, V>, k: K)
    ensures Lookup(c + d, k) == if Lookup(c, k).Some? then Lookup(c, k) else Lookup(d, k)
  {
    var all := c + d;
    var i, j := FirstWith(c, k), FirstWith(d, k);
    if i < |c| {
      assert all[i] == c[i];
    } else if j < |d| {
      assert all[|c| + j] == d[j];
    }
    assert FirstWith(all, k) < |all| ==> all[FirstWith(all, k)].key == k;
  }

  // ---------- Room, counted by hash ----------

  /** How many of the entries share the hash of `k` modulo the number of buckets. */
  function Congruent<K, V>(hash: Hash<K>, c: Chain<K, V>, count: nat, k: K): nat
    requires count > 0
  {
    if c == [] then 0
    else Congruent(hash, c[..|c| - 1], count, k) + if hash(c[|c| - 1].key) % count == hash(k) % count then 1 else 0
  }

  lemma {:induction false} CongruentSelected<K, V>(hash: Hash<K>, c: Chain<K, V>, count: nat, k: K)
    requires count > 0
    ensures Congruent(hash, c, count, k) == |Select(hash, c, count, BucketOf(hash, count, k))|
  {
    if c != [] { CongruentSelected(hash, c[..|c| - 1], count, k); }
  }

  lemma {:induction false} SelectWhole<K, V>(hash: Hash<K>, c: Chain<K, V>, count: nat, b: nat)
    requires count > 0 && forall i :: 0 <= i < |c| ==> BucketOf(hash, count, c[i].key) == b
    ensures Select(hash, c, count, b) == c
  {
    if c != [] { SelectWhole(hash, c[..|c| - 1], count, b); }
  }

  lemma {:induction false} SelectNone<K, V>(hash: Hash<K>, c: Chain<K, V>, count: nat, b: nat)
    requires count > 0 && forall i :: 0 <= i < |c| ==> BucketOf(hash, count, c[i].key) != b
    ensures Select(hash, c, count, b) == []
  {
    if c != [] { SelectNone(hash, c[..|c| - 1], count, b); }
  }

  /** A bucket holds exactly the entries whose hashes are congruent to its index. */
  lemma HomeHolds<K, V>(hash: Hash<K>, s: State<K, V>, k: K)
    requires Kept(hash, s)
    ensures |Home(hash, s, k)| == Congruent(hash, All(s.chains), |s.chains|, k)
  {
    var (n, b) := (|s.chains|, BucketOf(hash, |s.chains|, k));
    CongruentSelected(hash, All(s.chains), n, k);
    forall i | 0 <= i < n && i != b ensures Select(hash, s.chains[i], n, b) == [] {
      SelectNone(hash, s.chains[i], n, b);
    }
    SelectOnly(hash, s.chains, n, b, b);
    SelectWhole(hash, s.chains[b], n, b);
  }

  /** `insert` is refused exactly when as many stored keys as a bucket holds are congruent to its key, and
      `insert_or_assign` exactly when in addition its key is not stored. */
  lemma RefusedIff<K, V>(hash: Hash<K>, s: State<K, V>, k: K, v: V)
    requires Kept(hash, s)
    ensures Step(hash, s, Insert(k, v)).1.Refused? <==> Congruent(hash, All(s.chains), |s.chains|, k) == s.len
    ensures Step(hash, s, InsertOrAssign(k, v)).1.Refused? <==>
      Congruent(hash, All(s.chains), |s.chains|, k) == s.len && !HasKey(All(s.chains), k)
  {
    HomeHolds(hash, s, k);
    AllLookup(hash, s.chains, |s.chains|, k);
    assert s.chains[..|s.chains|] == s.chains;
    assert HasKey(All(s.chains), k) <==> Lookup(All(s.chains), k).Some?;
  }

  /** Every find answers as before a rehash that loses nothing. */
  lemma RehashKeepsLookups<K, V>(hash: Hash<K>, s: State<K, V>, count: nat, k: K)
    requires Kept(hash, s) && count > 0 && FitsAfter(hash, s, count)
    ensures Lookup(Home(hash, RehashStep(hash, s, count), k), k) == Lookup(Home(hash, s, k), k)
  {
    RehashLosslessIff(hash, s, count);
    SelectLookup(hash, All(s.chains), count, k);
    AllLookup(hash, s.chains, |s.chains|, k);
    assert s.chains[..|s.chains|] == s.chains;
  }

  // ---------- Conservation of the count through a rehash ----------

  ghost function Selected<K, V>(hash: Hash<K>, entries: Chain<K, V>, count: nat): seq<Chain<K, V>>
    requires count > 0
  {
    seq(count, (b: nat) => Select(hash, entries, count, b))
  }

  lemma {:induction false} TotalEmpty<K, V>(chains: seq<Chain<K, V>>)
    requires forall b :: 0 <= b < |chains| ==> chains[b] == []
    ensures Total(chains) == 0
  {
    if chains != [] { TotalEmpty(chains[..|chains| - 1]); }
  }

  lemma {:induction false} TotalSelected<K, V>(hash: Hash<K>, entries: Chain<K, V>, count: nat)
    requires count > 0
    ensures Total(Selected(hash, entries, count)) == |entries|
  {
    if entries == [] {
      TotalEmpty(Selected(hash, entries, count));
    } else {
      var (rest, e) := (entries[..|entries| - 1], entries[|entries| - 1]);
      TotalSelected(hash, rest, count);
      var before := Selected(hash, rest, count);
      var b := BucketOf(hash, count, e.key);
      TotalUpdate(before, b, before[b] + [e]);
      forall i | 0 <= i < count
        ensures Selected(hash, entries, count)[i] == before[b := before[b] + [e]][i]
      {
        assert before[i] + [] == before[i];
      }
      assert Selected(hash, entries, count) == before[b := before[b] + [e]];
    }
  }

  lemma {:induction false} TotalIsAll<K, V>(chains: seq<Chain<K, V>>)
    ensures Total(chains) == |All(chains)|
  {
    if chains != [] { TotalIsAll(chains[..|chains| - 1]); }
  }

  lemma {:induction false} TotalShorter<K, V>(xs: seq<Chain<K, V>>, ys: seq<Chain<K, V>>)
    requires |xs| == |ys| && forall b :: 0 <= b < |xs| ==> |xs[b]| <= |ys[b]|
    ensures Total(xs) <= Total(ys)
    ensures Total(xs) == Total(ys) <==> forall b :: 0 <= b < |xs| ==> |xs[b]| == |ys[b]|
  {
    if xs != [] { TotalShorter(xs[..|xs| - 1], ys[..|ys| - 1]); }
  }

  /** A rehash makes `m_size` drift exactly when it loses something. */
  lemma RehashSizeIff<K, V>(hash: Hash<K>, s: State<K, V>, count: nat)
    requires Kept(hash, s) && count > 0
    ensures var t := RehashStep(hash, s, count);
            Drift(t) >= Drift(s) && (Drift(t) == Drift(s) <==> FitsAfter(hash, s, count))
  {
    var (all, t) := (All(s.chains), RehashStep(hash, s, count));
    forall b | 0 <= b < count ensures t.chains[b] == Truncated(Select(hash, all, count, b), s.len) {
      RehashIs(hash, s, count, b);
    }
    TotalIsAll(s.chains);
    TotalSelected(hash, all, count);
    TotalShorter(t.chains, Selected(hash, all, count));
  }

  /** Any rehash keeps placement by hash, the bucket length and the flag, and unique keys, even if it loses entries. */
  lemma RehashKept<K, V>(hash: Hash<K>, s: State<K, V>, count: nat)
    requires Kept(hash, s) && count > 0
    ensures Kept(hash, RehashStep(hash, s, count))
    ensures AllUnique(s) ==> AllUnique(RehashStep(hash, s, count))
  {
    var (all, t) := (All(s.chains), RehashStep(hash, s, count));
    assert s.chains[..|s.chains|] == s.chains;
    AllNearlyUnique(hash, s, |s.chains|);
    if AllUnique(s) { AllUniqueKeys(hash, s, |s.chains|); }
    forall b | 0 <= b < count
      ensures |t.chains[b]| <= t.len && NearlyUnique(t.chains[b])
      ensures forall i :: 0 <= i < |t.chains[b]| ==> BucketOf(hash, count, t.chains[b][i].key) == b
      ensures AllUnique(s) ==> UniqueKeys(t.chains[b])
    {
      RehashIs(hash, s, count, b);
      SelectFrom(hash, all, count, b);
      SelectNearlyUnique(hash, all, count, b);
      if AllUnique(s) { SelectUnique(hash, all, count, b); }
    }
  }

  lemma {:induction false} AllUniqueKeys<K, V>(hash: Hash<K>, s: State<K, V>, n: nat)
    requires Kept(hash, s) && AllUnique(s) && n <= |s.chains|
    ensures UniqueKeys(All(s.chains[..n]))
  {
    if n > 0 {
      assert s.chains[..n][..n - 1] == s.chains[..n - 1];
      AllUniqueKeys(hash, s, n - 1);
      AllFrom(hash, s.chains, n - 1, |s.chains|);
      var (front, last) := (All(s.chains[..n - 1]), s.chains[n - 1]);
      forall i, j | 0 <= i < |front| && 0 <= j < |last| ensures front[i].key != last[j].key {
        assert BucketOf(hash, |s.chains|, last[j].key) == n - 1;
      }
    }
  }

  lemma {:induction false} SelectUnique<K, V>(hash: Hash<K>, c: Chain<K, V>, count: nat, b: nat)
    requires count > 0 && UniqueKeys(c)
    ensures UniqueKeys(Select(hash, c, count, b))
  {
    if c != [] {
      var rest := c[..|c| - 1];
      SelectUnique(hash, rest, count, b);
      SelectFrom(hash, rest, count, b);
      var chosen := Select(hash, rest, count, b);
      forall i | 0 <= i < |chosen| ensures chosen[i].key != c[|c| - 1].key {
        assert chosen[i] in rest;
      }
    }
  }

  /** With the load factor of a new map `check_rehash` always asks for a rehash. With the documented factor 1.0 it would
      ask exactly when a bucket is full or there are as many entries as buckets. */
  lemma DefaultAlwaysAsks(size: nat, count: nat, fill: bool)
    requires count > 0
    ensures CheckRehash(size, count, 0.0, fill)
    ensures CheckRehash(size, count, 1.0, fill) <==> fill || size >= count
  {
    AsksIff(size, count, 0, fill);
    AsksIff(size, count, 1, fill);
  }

  /** With a whole load factor the map asks exactly when a bucket is full or there are that many entries per bucket. */
  lemma AsksIff(size: nat, count: nat, factor: nat, fill: bool)
    requires count > 0
    ensures CheckRehash(size, count, factor as real, fill) <==> fill || size >= factor * count
  {
    TruncatingNat(size, count);
    var q := size / count;
    if q >= factor { MulMono(factor, q, count); } else { MulMono(q + 1, factor, count); }
  }

  // ---------- Every run keeps the invariant ----------

  lemma EmptyInv<K, V>(hash: Hash<K>, count: nat, len: nat)
    requires count > 0 && len > 0
    ensures Inv(hash, Empty<K, V>(count, len)) && AllUnique(Empty<K, V>(count, len))
  {
    TotalEmpty(Empty<K, V>(count, len).chains);
  }

  lemma InsertKept<K, V>(hash: Hash<K>, s: State<K, V>, k: K, v: V)
    requires Kept(hash, s)
    ensures var t := InsertStep(hash, s, k, v).0; Kept(hash, t) && Drift(t) == Drift(s)
  {
    var c := Home(hash, s, k);
    var d := Chains.InsertNoUpdate(c, s.len, k, v).0;
    InsertNoUpdateNearlyUnique(c, s.len, k, v);
    StoreKeeps(hash, s, BucketOf(hash, |s.chains|, k), d, s.size + |d| - |c|, s.fill || (|d| > |c| && |d| == s.len));
  }

  lemma AssignKept<K, V>(hash: Hash<K>, s: State<K, V>, k: K, v: V)
    requires Kept(hash, s)
    ensures var t := AssignStep(hash, s, k, v).0; Kept(hash, t) && Drift(t) == Drift(s)
  {
    var c := Home(hash, s, k);
    var d := Chains.InsertUpdate(c, s.len, k, v).0;
    InsertUpdateKeeps(c, s.len, k, v);
    StoreKeeps(hash, s, BucketOf(hash, |s.chains|, k), d, s.size + |d| - |c|, s.fill || (|d| > |c| && |d| == s.len));
  }

  lemma EraseKept<K, V>(hash: Hash<K>, s: State<K, V>, k: K)
    requires Kept(hash, s)
    ensures var t := EraseStep(hash, s, k).0; Kept(hash, t) && Drift(t) == Drift(s)
  {
    var c := Home(hash, s, k);
    var d := Chains.Remove(c, k).0;
    RemoveKeeps(c, k);
    StoreKeeps(hash, s, BucketOf(hash, |s.chains|, k), d, s.size + |d| - |c|, s.fill);
  }

  /** The call is not a rehash that loses an entry. */
  ghost predicate Fits<K, V>(hash: Hash<K>, s: State<K, V>, op: Op<K, V>)
    requires |s.chains| > 0
  {
    op.Rehash? ==> FitsAfter(hash, s, NewCount(|s.chains|, op.count, op.factor))
  }

  /** Every call keeps placement, lengths and the flag, and `m_size` drifts from the number of entries exactly in a
      rehash that loses some. */
  lemma StepKeeps<K, V>(hash: Hash<K>, s: State<K, V>, op: Op<K, V>)
    requires Kept(hash, s)
    ensures var t := Step(hash, s, op).0;
            Kept(hash, t) && Drift(t) >= Drift(s) && (Drift(t) == Drift(s) <==> Fits(hash, s, op))
  {
    match op {
      case Insert(k, v) => InsertKept(hash, s, k, v);
      case InsertOrAssign(k, v) => AssignKept(hash, s, k, v);
      case Erase(k) => EraseKept(hash, s, k);
      case Find(k) =>
      case Rehash(count, factor) =>
        RehashKept(hash, s, NewCount(|s.chains|, count, factor));
        RehashSizeIff(hash, s, NewCount(|s.chains|, count, factor));
    }
  }

  /** No rehash of the run loses an entry. */
  ghost predicate RunFits<K, V>(hash: Hash<K>, s: State<K, V>, ops: seq<Op<K, V>>)
    requires |s.chains| > 0
    decreases |ops|
  {
    ops == [] || (Fits(hash, s, ops[0]) && RunFits(hash, Step(hash, s, ops[0]).0, ops[1..]))
  }

  lemma {:induction false} RunKeeps<K, V>(hash: Hash<K>, s: State<K, V>, ops: seq<Op<K, V>>)
    requires Kept(hash, s)
    ensures var t := Run(hash, s, ops).0;
            Kept(hash, t) && Drift(t) >= Drift(s) && (Drift(t) == Drift(s) <==> RunFits(hash, s, ops))
    decreases |ops|
  {
    if ops != [] {
      StepKeeps(hash, s, ops[0]);
      RunKeeps(hash, Step(hash, s, ops[0]).0, ops[1..]);
    }
  }

  /** Every run of a map keeps it in shape, and `m_size` is the number of entries at its end exactly when no rehash on
      the way lost any. */
  lemma RunKeepsInvIff<K, V>(hash: Hash<K>, s: State<K, V>, ops: seq<Op<K, V>>)
    requires Inv(hash, s)
    ensures Kept(hash, Run(hash, s, ops).0)
    ensures Inv(hash, Run(hash, s, ops).0) <==> RunFits(hash, s, ops)
  {
    RunKeeps(hash, s, ops);
  }

  /** The flag after a call: a rehash sets it exactly when a bucket is full, and any other call leaves it set or sets it
      exactly when a bucket is full now. */
  lemma StepFlagIff<K, V>(hash: Hash<K>, s: State<K, V>, op: Op<K, V>)
    requires Kept(hash, s)
    ensures var t := Step(hash, s, op).0; t.fill <==> (!op.Rehash? && s.fill) || AnyFull(t.chains, t.len)
  {
    StepKeeps(hash, s, op);
    if !op.Rehash? {
      var (t, b) := (Step(hash, s, op).0, BucketOf(hash, |s.chains|, op.k));
      if t.fill && !s.fill { assert |t.chains[b]| == t.len; }
    }
  }

  /** The key is stored in the only full bucket. */
  ghost predicate InOnlyFull<K, V>(hash: Hash<K>, s: State<K, V>, k: K)
    requires |s.chains| > 0
  {
    && HasKey(Home(hash, s, k), k) && |Home(hash, s, k)| == s.len
    && forall b :: 0 <= b < |s.chains| && |s.chains[b]| == s.len ==> b == BucketOf(hash, |s.chains|, k)
  }

  /** A flag that says whether some bucket is full goes wrong exactly when a key is erased from the only full bucket. */
  lemma FlagRightIff<K, V>(hash: Hash<K>, s: State<K, V>, op: Op<K, V>)
    requires Kept(hash, s) && (s.fill <==> AnyFull(s.chains, s.len))
    ensures var t := Step(hash, s, op).0;
      (t.fill <==> AnyFull(t.chains, t.len)) <==> !(op.Erase? && InOnlyFull(hash, s, op.k))
  {
    StepFlagIff(hash, s, op);
    if !op.Rehash? {
      var (t, home) := (Step(hash, s, op).0, BucketOf(hash, |s.chains|, op.k));
      assert forall b :: 0 <= b < |s.chains| && b != home ==> t.chains[b] == s.chains[b];
      if AnyFull(s.chains, s.len) && !(op.Erase? && InOnlyFull(hash, s, op.k)) {
        var b :| 0 <= b < |s.chains| && |s.chains[b]| == s.len && (op.Erase? && HasKey(Home(hash, s, op.k), op.k) ==> b != home);
        assert |t.chains[b]| == t.len;
      }
    }
  }

  /** After filling the only bucket, which has length one, and erasing its key the flag is still set. */
  lemma FlagStays<K, V>(hash: Hash<K>, k: K, v: V)
    ensures var full := Step(hash, Empty(1, 1), Insert(k, v)).0;
      var t := Step(hash, full, Erase(k)).0;
      t.fill && t.chains == [[]]
  {
    assert Empty<K, V>(1, 1).chains == [[]] && BucketOf(hash, 1, k) == 0;
    assert Chains.InsertNoUpdate([], 1, k, v).0 == [Entry(k, v)];
    var full := Step(hash, Empty(1, 1), Insert(k, v)).0;
    assert full == State([[Entry(k, v)]], 1, 1, true);
    assert Chains.Remove([Entry(k, v)], k).0 == [];
  }

  /** Some bucket is full after one of the first calls of a run, the moment before them included. */
  ghost predicate EverFull<K, V>(hash: Hash<K>, s: State<K, V>, ops: seq<Op<K, V>>)
    requires |s.chains| > 0
    decreases |ops|
  {
    AnyFull(s.chains, s.len) || (ops != [] && EverFull(hash, Step(hash, s, ops[0]).0, ops[1..]))
  }

  /** Between two rehashes the flag says that some bucket has been full. */
  lemma {:induction false} RunFlagIff<K, V>(hash: Hash<K>, s: State<K, V>, ops: seq<Op<K, V>>)
    requires Kept(hash, s) && forall i :: 0 <= i < |ops| ==> !ops[i].Rehash?
    ensures Run(hash, s, ops).0.fill <==> s.fill || EverFull(hash, s, ops)
    decreases |ops|
  {
    if ops != [] {
      StepFlagIff(hash, s, ops[0]);
      StepKeeps(hash, s, ops[0]);
      RunFlagIff(hash, Step(hash, s, ops[0]).0, ops[1..]);
    }
  }

  /** Rehashing by whole factors only, the default doubling included, never loses anything. */
  lemma {:induction false} FactorsFit<K, V>(hash: Hash<K>, s: State<K, V>, ops: seq<Op<K, V>>)
    requires Kept(hash, s) && forall i :: 0 <= i < |ops| && ops[i].Rehash? ==> ops[i].count == -1
    ensures RunFits(hash, s, ops)
    decreases |ops|
  {
    if ops != [] {
      if ops[0].Rehash? { RehashByFactor(hash, s, if ops[0].factor > 1 then ops[0].factor else 2); }
      StepKeeps(hash, s, ops[0]);
      FactorsFit(hash, Step(hash, s, ops[0]).0, ops[1..]);
    }
  }

  // ---------- Refinement of a finite map ----------

  ghost predicate Represents<K(!new), V>(hash: Hash<K>, s: State<K, V>, m: map<K, V>) {
    && Inv(hash, s) && AllUnique(s)
    && s.size == |m|
    && forall k :: Lookup(Home(hash, s, k), k) == if k in m then Some(m[k]) else None
  }

  /** The finite map's own reading of a call; `room` says whether the key's bucket has a free node. */
  function MapStep<K(==), V>(m: map<K, V>, op: Op<K, V>, room: bool): (map<K, V>, Answer<V>) {
    match op
    case Insert(k, v) =>
      if !room then (m, Refused) else if k in m then (m, Present(m[k])) else (m[k := v], Added)
    case InsertOrAssign(k, v) =>
      if k in m then (m[k := v], Present(v)) else if room then (m[k := v], Added) else (m, Refused)
    case Erase(k) => (m - {k}, Removed(k in m))
    case Find(k) => (m, Found(if k in m then Some(m[k]) else None))
    case Rehash(_, _) => (m, Rehashed)
  }

  predicate Room<K, V>(hash: Hash<K>, s: State<K, V>, op: Op<K, V>)
    requires |s.chains| > 0
  {
    op.Rehash? || |Home(hash, s, op.k)| < s.len
  }

  /** The call is not an `insert` of the key that sits last in its bucket, and not a rehash that loses an entry. */
  ghost predicate Harmless<K, V>(hash: Hash<K>, s: State<K, V>, op: Op<K, V>)
    requires |s.chains| > 0
  {
    (op.Insert? ==> !HitsTail(Home(hash, s, op.k), s.len, op.k)) && Fits(hash, s, op)
  }

  /** The call does to the represented map, and answers, what the same call does on a finite map. */
  ghost predicate Refines<K(!new), V>(hash: Hash<K>, s: State<K, V>, m: map<K, V>, op: Op<K, V>)
    requires |s.chains| > 0
  {
    var (t, a) := Step(hash, s, op);
    var (m', a') := MapStep(m, op, Room(hash, s, op));
    Represents(hash, t, m') && a == a'
  }

  /** The chain `d` answers for `k` as the map does, and for every other key as `c` does. */
  ghost predicate Answers<K(!new), V>(d: Chain<K, V>, c: Chain<K, V>, m: map<K, V>, k: K) {
    forall x :: Lookup(d, x) == if x != k then Lookup(c, x) else if k in m then Some(m[k]) else None
  }

  lemma InsertAnswers<K(!new), V>(c: Chain<K, V>, len: nat, m: map<K, V>, k: K, v: V)
    requires Lookup(c, k) == (if k in m then Some(m[k]) else None) && !HitsTail(c, len, k) && |c| <= len
    ensures Answers(Chains.InsertNoUpdate(c, len, k, v).0, c, MapStep(m, Insert(k, v), |c| < len).0, k)
  {
    var d := Chains.InsertNoUpdate(c, len, k, v).0;
    forall x ensures Lookup(d, x) == if x != k then Lookup(c, x) else if k in m || |c| < len then Some(if k in m then m[k] else v) else None {
      InsertNoUpdateLookup(c, len, k, v, x);
    }
  }

  lemma AssignAnswers<K(!new), V>(c: Chain<K, V>, len: nat, m: map<K, V>, k: K, v: V)
    requires Lookup(c, k) == (if k in m then Some(m[k]) else None) && |c| <= len
    ensures Answers(Chains.InsertUpdate(c, len, k, v).0, c, MapStep(m, InsertOrAssign(k, v), |c| < len).0, k)
  {
    var d := Chains.InsertUpdate(c, len, k, v).0;
    forall x ensures Lookup(d, x) == if x != k then Lookup(c, x) else if k in m || |c| < len then Some(v) else None {
      InsertUpdateLookup(c, len, k, v, x);
    }
  }

  /** One bucket changed, and only the answer for `k` with it. */
  lemma StoreRepresents<K(!new), V>(hash: Hash<K>, s: State<K, V>, m: map<K, V>, t: State<K, V>, m': map<K, V>, k: K, d: Chain<K, V>)
    requires Represents(hash, s, m) && Inv(hash, t)
    requires t.chains == s.chains[BucketOf(hash, |s.chains|, k) := d]
    requires UniqueKeys(d) && t.size == |m'|
    requires m' - {k} == m - {k}
    requires Answers(d, Home(hash, s, k), m', k)
    ensures Represents(hash, t, m')
  {
    forall x ensures Lookup(Home(hash, t, x), x) == if x in m' then Some(m'[x]) else None {
      assert Lookup(Home(hash, s, x), x) == if x in m then Some(m[x]) else None;
      assert x != k ==> ((x in m <==> x in m - {k}) && (x in m' <==> x in m' - {k}));
    }
  }

  lemma WithKey<K, V>(m: map<K, V>, k: K, v: V)
    ensures m[k := v] - {k} == m - {k}
    ensures |m[k := v]| == if k in m then |m| else |m| + 1
  {
    if k in m {
      assert m[k := v].Keys == m.Keys;
      assert |m[k := v].Keys| == |m[k := v]| && |m.Keys| == |m|;
    }
  }

  lemma InsertAnswered<K(!new), V>(hash: Hash<K>, s: State<K, V>, m: map<K, V>, k: K, v: V)
    requires |s.chains| > 0 && (Lookup(Home(hash, s, k), k) == if k in m then Some(m[k]) else None)
    requires |Home(hash, s, k)| <= s.len && UniqueKeys(Home(hash, s, k)) && Harmless(hash, s, Insert(k, v))
    ensures Step(hash, s, Insert(k, v)).1 == MapStep(m, Insert(k, v), Room(hash, s, Insert(k, v))).1
  {
  }

  lemma InsertRefines<K(!new), V>(hash: Hash<K>, s: State<K, V>, m: map<K, V>, k: K, v: V)
    requires Represents(hash, s, m) && Harmless(hash, s, Insert(k, v))
    ensures Refines(hash, s, m, Insert(k, v))
  {
    var c := Home(hash, s, k);
    var (d, o) := Chains.InsertNoUpdate(c, s.len, k, v);
    var m' := MapStep(m, Insert(k, v), |c| < s.len).0;
    assert Lookup(c, k) == if k in m then Some(m[k]) else None;
    InsertKept(hash, s, k, v);
    InsertNoUpdateUniqueIff(c, s.len, k, v);
    InsertAnswers(c, s.len, m, k, v);
    InsertAnswered(hash, s, m, k, v);
    WithKey(m, k, v);
    StoreRepresents(hash, s, m, Step(hash, s, Insert(k, v)).0, m', k, d);
  }

  lemma AssignAnswered<K(!new), V>(hash: Hash<K>, s: State<K, V>, m: map<K, V>, k: K, v: V)
    requires |s.chains| > 0 && (Lookup(Home(hash, s, k), k) == if k in m then Some(m[k]) else None)
    requires |Home(hash, s, k)| <= s.len
    ensures Step(hash, s, InsertOrAssign(k, v)).1 == MapStep(m, InsertOrAssign(k, v), Room(hash, s, InsertOrAssign(k, v))).1
  {
  }

  lemma AssignRefines<K(!new), V>(hash: Hash<K>, s: State<K, V>, m: map<K, V>, k: K, v: V)
    requires Represents(hash, s, m)
    ensures Refines(hash, s, m, InsertOrAssign(k, v))
  {
    var c := Home(hash, s, k);
    var (d, o) := Chains.InsertUpdate(c, s.len, k, v);
    var m' := MapStep(m, InsertOrAssign(k, v), |c| < s.len).0;
    assert Lookup(c, k) == if k in m then Some(m[k]) else None;
    AssignKept(hash, s, k, v);
    InsertUpdateKeeps(c, s.len, k, v);
    AssignAnswers(c, s.len, m, k, v);
    AssignAnswered(hash, s, m, k, v);
    WithKey(m, k, v);
    StoreRepresents(hash, s, m, Step(hash, s, InsertOrAssign(k, v)).0, m', k, d);
  }

  lemma WithoutKey<K, V>(m: map<K, V>, k: K)
    ensures |m - {k}| == if k in m then |m| - 1 else |m|
    ensures (m - {k}) - {k} == m - {k}
  {
    if k in m { assert m == (m - {k})[k := m[k]]; } else { assert m - {k} == m; }
  }

  lemma EraseRefines<K(!new), V>(hash: Hash<K>, s: State<K, V>, m: map<K, V>, k: K)
    requires Represents(hash, s, m)
    ensures Refines(hash, s, m, Erase(k))
  {
    assert Lookup(Home(hash, s, k), k) == if k in m then Some(m[k]) else None;
    EraseRepresents(hash, s, m, k);
    EraseAnswered(hash, s, m, k);
  }

  lemma EraseRepresents<K(!new), V>(hash: Hash<K>, s: State<K, V>, m: map<K, V>, k: K)
    requires Represents(hash, s, m)
    ensures Represents(hash, EraseStep(hash, s, k).0, m - {k})
  {
    var c := Home(hash, s, k);
    assert Lookup(c, k) == if k in m then Some(m[k]) else None;
    EraseKept(hash, s, k);
    RemoveKeeps(c, k);
    WithoutKey(m, k);
    EraseAnswers(c, m, k);
    EraseAnswered(hash, s, m, k);
    StoreRepresents(hash, s, m, EraseStep(hash, s, k).0, m - {k}, k, Chains.Remove(c, k).0);
  }

  lemma EraseAnswers<K(!new), V>(c: Chain<K, V>, m: map<K, V>, k: K)
    requires UniqueKeys(c)
    ensures Answers(Chains.Remove(c, k).0, c, m - {k}, k)
  {
    forall x ensures Lookup(Chains.Remove(c, k).0, x) == if x != k then Lookup(c, x) else None {
      RemoveLookup(c, k, x);
    }
  }

  lemma EraseAnswered<K(!new), V>(hash: Hash<K>, s: State<K, V>, m: map<K, V>, k: K)
    requires |s.chains| > 0 && (Lookup(Home(hash, s, k), k) == if k in m then Some(m[k]) else None)
    ensures Step(hash, s, Erase(k)).1 == Removed(k in m)
    ensures Step(hash, s, Erase(k)).0.size == s.size - if k in m then 1 else 0
  {
  }

  lemma FindRefines<K(!new), V>(hash: Hash<K>, s: State<K, V>, m: map<K, V>, k: K)
    requires Represents(hash, s, m)
    ensures Refines(hash, s, m, Find(k))
  {
    assert Lookup(Home(hash, s, k), k) == if k in m then Some(m[k]) else None;
  }

  lemma RehashRefines<K(!new), V>(hash: Hash<K>, s: State<K, V>, m: map<K, V>, count: int, factor: int)
    requires Represents(hash, s, m) && Fits(hash, s, Rehash(count, factor))
    ensures Refines(hash, s, m, Rehash(count, factor))
  {
    var n := NewCount(|s.chains|, count, factor);
    RehashKept(hash, s, n);
    RehashSizeIff(hash, s, n);
    var t := RehashStep(hash, s, n);
    forall x ensures Lookup(Home(hash, t, x), x) == if x in m then Some(m[x]) else None {
      RehashKeepsLookups(hash, s, n, x);
      assert Lookup(Home(hash, s, x), x) == if x in m then Some(m[x]) else None;
    }
  }

  lemma StepRefines<K(!new), V>(hash: Hash<K>, s: State<K, V>, m: map<K, V>, op: Op<K, V>)
    requires Represents(hash, s, m) && Harmless(hash, s, op)
    ensures Refines(hash, s, m, op)
  {
    if op.Insert? {
      InsertRefines(hash, s, m, op.k, op.v);
    } else if op.InsertOrAssign? {
      AssignRefines(hash, s, m, op.k, op.v);
    } else if op.Erase? {
      EraseRefines(hash, s, m, op.k);
    } else if op.Find? {
      FindRefines(hash, s, m, op.k);
    } else {
      RehashRefines(hash, s, m, op.count, op.factor);
    }
  }

  ghost predicate RunHarmless<K, V>(hash: Hash<K>, s: State<K, V>, ops: seq<Op<K, V>>)
    requires |s.chains| > 0
    decreases |ops|
  {
    ops == [] || (Harmless(hash, s, ops[0]) && RunHarmless(hash, Step(hash, s, ops[0]).0, ops[1..]))
  }

  /** The map's own run, told at each call whether the bucket had room. */
  function MapRun<K(==), V>(hash: Hash<K>, s: State<K, V>, m: map<K, V>, ops: seq<Op<K, V>>): (map<K, V>, seq<Answer<V>>)
    requires |s.chains| > 0
    decreases |ops|
  {
    if ops == [] then (m, [])
    else
      var (m', a) := MapStep(m, ops[0], Room(hash, s, ops[0]));
      var (m'', rest) := MapRun(hash, Step(hash, s, ops[0]).0, m', ops[1..]);
      (m'', [a] + rest)
  }

  /** Every harmless run answers, call by call, as the finite map does. */
  lemma {:induction false} RunRefines<K(!new), V>(hash: Hash<K>, s: State<K, V>, m: map<K, V>, ops: seq<Op<K, V>>)
    requires Represents(hash, s, m) && RunHarmless(hash, s, ops)
    ensures var (t, answers) := Run(hash, s, ops);
            var (m', answers') := MapRun(hash, s, m, ops);
            answers == answers' && Represents(hash, t, m')
    decreases |ops|
  {
    if ops != [] {
      StepRefines(hash, s, m, ops[0]);
      RunRefines(hash, Step(hash, s, ops[0]).0, MapStep(m, ops[0], Room(hash, s, ops[0])).0, ops[1..]);
    }
  }
}
