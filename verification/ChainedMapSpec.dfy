/** `experimental::Map` as a function of its state: one chain per bucket, the entry count `m_size` and
    the flag `m_bucket_fill`.  The hash function is a parameter. */
module ChainedMapSpec {
  import opened Arithmetic
  import opened Chains
  import opened Wrappers

  datatype State<K, V> = State(chains: seq<Chain<K, V>>, len: nat, size: int, fill: bool)

  type Hash<!K> = K -> nat

  function BucketOf<K>(hash: Hash<K>, count: nat, k: K): (b: nat)
    requires count > 0
    ensures b < count
  {
    hash(k) % count
  }

  function Home<K, V>(hash: Hash<K>, s: State<K, V>, k: K): Chain<K, V>
    requires |s.chains| > 0
  {
    s.chains[BucketOf(hash, |s.chains|, k)]
  }

  // ---------- Operations ----------

  /** What the caller of an operation sees.  `Refused` is the end node with `false`. */
  datatype Answer<V> = Added | Present(value: V) | Refused | Removed(found: bool) | Found(entry: Option<V>) | Rehashed

  datatype Op<K, V> =
    | Insert(k: K, v: V)
    | InsertOrAssign(k: K, v: V)
    | Erase(k: K)
    | Find(k: K)
    | Rehash(count: int, factor: int)

  function Stored<K, V>(s: State<K, V>, b: nat, r: (Chain<K, V>, Outcome)): State<K, V>
    requires b < |s.chains|
  {
    var added := r.1.Inserted?;
    State(s.chains[b := r.0], s.len, if added then s.size + 1 else s.size,
          s.fill || (added && |r.0| == s.len))
  }

  function InsertStep<K(==), V>(hash: Hash<K>, s: State<K, V>, k: K, v: V): (State<K, V>, Outcome)
    requires |s.chains| > 0
  {
    var r := Chains.InsertNoUpdate(Home(hash, s, k), s.len, k, v);
    (Stored(s, BucketOf(hash, |s.chains|, k), r), r.1)
  }

  function AssignStep<K(==), V>(hash: Hash<K>, s: State<K, V>, k: K, v: V): (State<K, V>, Outcome)
    requires |s.chains| > 0
  {
    var r := Chains.InsertUpdate(Home(hash, s, k), s.len, k, v);
    (Stored(s, BucketOf(hash, |s.chains|, k), r), r.1)
  }

  function EraseStep<K(==), V>(hash: Hash<K>, s: State<K, V>, k: K): (State<K, V>, bool)
    requires |s.chains| > 0
  {
    var (c, found) := Chains.Remove(Home(hash, s, k), k);
    (s.(chains := s.chains[BucketOf(hash, |s.chains|, k) := c], size := if found then s.size - 1 else s.size), found)
  }

  /** One chain replaced, and the counter and flag moved as an insertion with outcome `o` moves them. */
  ghost predicate Counted<K, V>(s: State<K, V>, t: State<K, V>, b: nat, c: Chain<K, V>, o: Outcome)
    requires b < |s.chains|
  {
    && t.chains == s.chains[b := c] && t.len == s.len
    && t.size == s.size + (if o.Inserted? then 1 else 0)
    && t.fill == (s.fill || (o.Inserted? && |c| == s.len))
  }

  lemma InsertStepIs<K, V>(hash: Hash<K>, s: State<K, V>, k: K, v: V, t: State<K, V>)
    requires |s.chains| > 0
    requires var (c, o) := Chains.InsertNoUpdate(Home(hash, s, k), s.len, k, v); Counted(s, t, BucketOf(hash, |s.chains|, k), c, o)
    ensures InsertStep(hash, s, k, v) == (t, Chains.InsertNoUpdate(Home(hash, s, k), s.len, k, v).1)
  {
  }

  lemma AssignStepIs<K, V>(hash: Hash<K>, s: State<K, V>, k: K, v: V, t: State<K, V>)
    requires |s.chains| > 0
    requires var (c, o) := Chains.InsertUpdate(Home(hash, s, k), s.len, k, v); Counted(s, t, BucketOf(hash, |s.chains|, k), c, o)
    ensures AssignStep(hash, s, k, v) == (t, Chains.InsertUpdate(Home(hash, s, k), s.len, k, v).1)
  {
  }

  lemma EraseStepIs<K, V>(hash: Hash<K>, s: State<K, V>, k: K, t: State<K, V>)
    requires |s.chains| > 0 && t.len == s.len && t.fill == s.fill
    requires var (c, found) := Chains.Remove(Home(hash, s, k), k);
             t.chains == s.chains[BucketOf(hash, |s.chains|, k) := c] && t.size == s.size - if found then 1 else 0
    ensures EraseStep(hash, s, k) == (t, Chains.Remove(Home(hash, s, k), k).1)
  {
  }

  function EmptyChains<K, V>(count: nat): seq<Chain<K, V>> {
    seq(count, i => [])
  }

  /** All entries, bucket after bucket: the order in which `rehash` visits them. */
  function All<K, V>(chains: seq<Chain<K, V>>): Chain<K, V> {
    if chains == [] then [] else All(chains[..|chains| - 1]) + chains[|chains| - 1]
  }

  /** Re-inserting `entries` in order into `count` empty buckets of length `len`. */
  function Spread<K(==), V>(hash: Hash<K>, entries: Chain<K, V>, count: nat, len: nat): (r: seq<Chain<K, V>>)
    requires count > 0
    ensures |r| == count
  {
    if entries == [] then EmptyChains(count)
    else
      var (rest, e) := (entries[..|entries| - 1], entries[|entries| - 1]);
      var before := Spread(hash, rest, count, len);
      var b := BucketOf(hash, count, e.key);
      before[b := Chains.InsertNoUpdate(before[b], len, e.key, e.value).0]
  }

  lemma SpreadSnoc<K, V>(hash: Hash<K>, entries: Chain<K, V>, e: Entry<K, V>, count: nat, len: nat)
    requires count > 0
    ensures var (before, b) := (Spread(hash, entries, count, len), BucketOf(hash, count, e.key));
            Spread(hash, entries + [e], count, len) == before[b := Chains.InsertNoUpdate(before[b], len, e.key, e.value).0]
  {
    assert (entries + [e])[..|entries|] == entries;
  }

  predicate AnyFull<K, V>(chains: seq<Chain<K, V>>, len: nat) {
    exists b :: 0 <= b < |chains| && |chains[b]| == len
  }

  /** `rehash` to `count` buckets.  The bucket length and `m_size` are left as they are. */
  function RehashStep<K(==), V>(hash: Hash<K>, s: State<K, V>, count: nat): State<K, V>
    requires count > 0
  {
    var chains := Spread(hash, All(s.chains), count, s.len);
    State(chains, s.len, s.size, AnyFull(chains, s.len))
  }

  /** The bucket count `rehash` settles on.  In the last case the asserts of the source ask for both arguments to be -1. */
  function NewCount(current: nat, count: int, factor: int): (n: nat)
    ensures current > 0 ==> n > current
  {
    if count != -1 && count > current then count
    else if factor != -1 && factor > 1 then MulMono(2, factor, current); factor * current
    else 2 * current
  }

  predicate CheckRehash(size: int, count: nat, loadFactor: real, fill: bool)
    requires count > 0
  {
    Truncating(size, count) as real >= loadFactor || fill
  }

  function Step<K(==), V>(hash: Hash<K>, s: State<K, V>, op: Op<K, V>): (r: (State<K, V>, Answer<V>))
    requires |s.chains| > 0
    ensures |r.0.chains| > 0
  {
    match op
    case Insert(k, v) =>
      var (t, o) := InsertStep(hash, s, k, v);
      (t, if o.Full? then Refused else if o.Inserted? then Added else Present(Home(hash, s, k)[o.at].value))
    case InsertOrAssign(k, v) =>
      var (t, o) := AssignStep(hash, s, k, v);
      (t, if o.Full? then Refused else if o.Inserted? then Added else Present(v))
    case Erase(k) =>
      var (t, found) := EraseStep(hash, s, k);
      (t, Removed(found))
    case Find(k) => (s, Found(Lookup(Home(hash, s, k), k)))
    case Rehash(count, factor) => (RehashStep(hash, s, NewCount(|s.chains|, count, factor)), Rehashed)
  }

  function Empty<K, V>(count: nat, len: nat): State<K, V> {
    State(EmptyChains(count), len, 0, false)
  }

  /** A whole run: the final state and what each call answered. */
  function Run<K(==), V>(hash: Hash<K>, s: State<K, V>, ops: seq<Op<K, V>>): (State<K, V>, seq<Answer<V>>)
    requires |s.chains| > 0
    decreases |ops|
  {
    if ops == [] then (s, [])
    else
      var (t, a) := Step(hash, s, ops[0]);
      var (u, rest) := Run(hash, t, ops[1..]);
      (u, [a] + rest)
  }

  // ---------- Invariants ----------

  function Total<K, V>(chains: seq<Chain<K, V>>): nat {
    if chains == [] then 0 else Total(chains[..|chains| - 1]) + |chains[|chains| - 1]|
  }

  ghost predicate Placed<K, V>(hash: Hash<K>, chains: seq<Chain<K, V>>) {
    forall b, i :: 0 <= b < |chains| && 0 <= i < |chains[b]| ==> BucketOf(hash, |chains|, chains[b][i].key) == b
  }

  /** Kept by every operation, the unchecked tail of `insert` and a rehash that loses entries included. */
  ghost predicate Kept<K, V>(hash: Hash<K>, s: State<K, V>) {
    && |s.chains| > 0 && s.len > 0
    && Placed(hash, s.chains)
    && (forall b :: 0 <= b < |s.chains| ==> |s.chains[b]| <= s.len && NearlyUnique(s.chains[b]))
    && (AnyFull(s.chains, s.len) ==> s.fill)
  }

  /** By how much `m_size` exceeds the number of entries. */
  ghost function Drift<K, V>(s: State<K, V>): int {
    s.size - Total(s.chains)
  }

  /** Kept as long as no rehash loses an entry. */
  ghost predicate Inv<K, V>(hash: Hash<K>, s: State<K, V>) {
    Kept(hash, s) && Drift(s) == 0
  }

  ghost predicate AllUnique<K, V>(s: State<K, V>) {
    forall b :: 0 <= b < |s.chains| ==> UniqueKeys(s.chains[b])
  }

  lemma {:induction false} TotalUpdate<K, V>(chains: seq<Chain<K, V>>, b: nat, c: Chain<K, V>)
    requires b < |chains|
    ensures Total(chains[b := c]) == Total(chains) - |chains[b]| + |c|
  {
    var n := |chains| - 1;
    var updated := chains[b := c];
    if b < n {
      assert updated[..n] == chains[..n][b := c];
      TotalUpdate(chains[..n], b, c);
    } else {
      assert updated[..n] == chains[..n];
    }
  }

  /** Replacing one chain by a chain of the same bucket keeps placement and sizes. */
  lemma StoreKeeps<K, V>(hash: Hash<K>, s: State<K, V>, b: nat, c: Chain<K, V>, size: int, fill: bool)
    requires Kept(hash, s) && b < |s.chains|
    requires |c| <= s.len && NearlyUnique(c)
    requires forall i :: 0 <= i < |c| ==> BucketOf(hash, |s.chains|, c[i].key) == b
    requires size == s.size + |c| - |s.chains[b]|
    requires fill == (s.fill || (|c| > |s.chains[b]| && |c| == s.len)) && |c| <= |s.chains[b]| + 1
    requires |c| == s.len ==> |c| >= |s.chains[b]|
    ensures var t := State(s.chains[b := c], s.len, size, fill); Kept(hash, t) && Drift(t) == Drift(s)
  {
    TotalUpdate(s.chains, b, c);
  }
}
