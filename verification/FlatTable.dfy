/** The slot table of `FlatMap`: groups of fifteen one-byte cells with overflow bits, over raw pair storage. */
module FlatTables {
  import opened Arithmetic
  import opened Counting
  import opened ProbeSequence

  const SIZE: int := 15
  const EMPTY: int := 0
  const SENTINEL: int := 1
  const INVALID: int := -1

  datatype Group = Group(ofw: seq<bool>, cells: seq<int>)

  /** Storage for one pair: unconstructed, or holding a constructed pair. */
  datatype Slot<K, V> = Raw | Live(key: K, value: V)

  ghost predicate GroupOk(g: Group) {
    |g.ofw| == 8 && |g.cells| == SIZE
  }

  /** The overflow bit a hash uses, taken from its lowest byte. */
  function Bit(hash: nat): (b: nat)
    ensures b < 8
  {
    (hash % 256) % 8
  }

  /** The byte stored for a hash; it avoids the two reserved values. */
  function Mark(hash: nat): (c: int)
    ensures 2 <= c <= 255 && c != EMPTY && c != SENTINEL
  {
    var low := hash % 256;
    if low < 2 then low + 8 else low
  }

  /** The group where probing starts: the top `k` of 64 bits. */
  function Home(hash: nat, k: nat): (g: nat)
    ensures g < Pow2(k)
  {
    (if k <= 64 then hash / Pow2(64 - k) else hash) % Pow2(k)
  }

  /** A hash below 2^k * 2^(64 - k), so one of 64 bits, starts probing at the group that its top `k` bits name: the hashes
      that start at one group form an interval. */
  lemma HomeIs(hash: nat, k: nat, g: nat)
    requires k <= 64 && hash < Pow2(k) * Pow2(64 - k) && g < Pow2(k)
    ensures Home(hash, k) == g <==> g * Pow2(64 - k) <= hash < (g + 1) * Pow2(64 - k)
  {
    TopDigit(hash, Pow2(64 - k), Pow2(k), g);
  }

  lemma TopDigit(x: nat, m: nat, n: nat, g: nat)
    requires m > 0 && x < n * m && g < n
    ensures (x / m) % n == g <==> g * m <= x < (g + 1) * m
  {
    var (q, r) := (x / m, x % m);
    assert x == q * m + r;
    if q >= n { MulMono(n, q, m); assert false; }
    DivUnique(q, n, 0, q);
    if q < g { MulMono(q + 1, g, m); }
    if q > g { MulMono(g + 1, q, m); }
  }

  /** The stored byte is the low byte, unless that is reserved, and the overflow bit is given by its low three bits. */
  lemma LowByte(hash: nat)
    ensures 2 <= hash % 256 ==> Mark(hash) == hash % 256
    ensures Bit(hash) == hash % 8 == Mark(hash) % 8
  {
    ModOfMultiple(hash, 8, 32);
    var low := hash % 256;
    assert low < 2 ==> low + 8 == 1 * 8 + low;
  }

  predicate Overflowed(g: Group, hash: nat)
    requires GroupOk(g)
  {
    g.ofw[Bit(hash)]
  }

  ghost predicate Shaped(k: nat, groups: seq<Group>) {
    && |groups| == Pow2(k)
    && forall g :: 0 <= g < |groups| ==> GroupOk(groups[g])
  }

  /** The cell of bucket `p`. */
  function Cell(groups: seq<Group>, p: nat): int
    requires p < SIZE * |groups| && GroupOk(groups[p / SIZE])
  {
    groups[p / SIZE].cells[p % SIZE]
  }

  function SetCell(groups: seq<Group>, p: nat, c: int): (r: seq<Group>)
    requires p < SIZE * |groups| && GroupOk(groups[p / SIZE])
  {
    var g := groups[p / SIZE];
    groups[p / SIZE := g.(cells := g.cells[p % SIZE := c])]
  }

  /** Step `t` of the walk for `hash` is at group `g`, and every group before it is marked as overflowed. */
  ghost predicate ReachedAt(k: nat, groups: seq<Group>, hash: nat, g: int, t: nat)
    requires Shaped(k, groups)
  {
    && t < |groups|
    && Probe(Home(hash, k), t, Pow2(k)) == g
    && Passed(k, groups, hash, t)
  }

  ghost predicate Passed(k: nat, groups: seq<Group>, hash: nat, t: nat)
    requires Shaped(k, groups)
  {
    forall u: nat :: u < t ==> Overflowed(groups[Probe(Home(hash, k), u, Pow2(k))], hash)
  }

  ghost predicate Reached(k: nat, groups: seq<Group>, hash: nat, g: int)
    requires Shaped(k, groups)
  {
    exists t: nat :: ReachedAt(k, groups, hash, g, t)
  }

  /** Cells say which slots are constructed, and the last cell stops iteration. */
  ghost predicate Mirrors<K, V>(hash: K -> nat, k: nat, groups: seq<Group>, slots: seq<Slot<K, V>>) {
    && Shaped(k, groups)
    && |slots| == SIZE * |groups| - 1
    && Cell(groups, |slots|) == SENTINEL
    && forall p :: 0 <= p < |slots| ==>
      Cell(groups, p) == if slots[p].Raw? then EMPTY else Mark(hash(slots[p].key))
  }

  /** `at` gives the one slot of each key. */
  ghost predicate Indexed<K, V>(slots: seq<Slot<K, V>>, at: map<K, nat>) {
    && (forall key <- at :: at[key] < |slots| && slots[at[key]].Live? && slots[at[key]].key == key)
    && (forall p :: 0 <= p < |slots| && slots[p].Live? ==> slots[p].key in at && at[slots[p].key] == p)
  }

  ghost predicate Findable<K>(hash: K -> nat, k: nat, groups: seq<Group>, at: map<K, nat>)
    requires Shaped(k, groups)
  {
    forall key <- at :: Reached(k, groups, hash(key), at[key] / SIZE)
  }

  ghost predicate Stored<K, V>(hash: K -> nat, k: nat, groups: seq<Group>, slots: seq<Slot<K, V>>, at: map<K, nat>) {
    && Mirrors(hash, k, groups, slots)
    && Indexed(slots, at)
    && Findable(hash, k, groups, at)
  }

  ghost function Contents<K, V>(slots: seq<Slot<K, V>>, at: map<K, nat>): (m: map<K, V>)
    requires Indexed(slots, at)
    ensures m.Keys == at.Keys
  {
    map key <- at :: slots[at[key]].value
  }

  // ---------- Changes to the table ----------

  /** Only overflow bits have been set. */
  ghost predicate Raised(groups: seq<Group>, raised: seq<Group>) {
    && |raised| == |groups|
    && forall g :: 0 <= g < |groups| && GroupOk(groups[g]) ==>
      && GroupOk(raised[g])
      && raised[g].cells == groups[g].cells
      && forall b :: 0 <= b < 8 && groups[g].ofw[b] ==> raised[g].ofw[b]
  }

  lemma RaisedReached(k: nat, groups: seq<Group>, raised: seq<Group>, hash: nat, g: int)
    requires Shaped(k, groups) && Raised(groups, raised) && Reached(k, groups, hash, g)
    ensures Shaped(k, raised) && Reached(k, raised, hash, g)
  {
    var t: nat :| ReachedAt(k, groups, hash, g, t);
    assert ReachedAt(k, raised, hash, g, t);
  }

  lemma RaiseKeeps<K, V>(hash: K -> nat, k: nat, groups: seq<Group>, raised: seq<Group>, slots: seq<Slot<K, V>>, at: map<K, nat>)
    requires Stored(hash, k, groups, slots, at) && Raised(groups, raised)
    ensures Stored(hash, k, raised, slots, at)
  {
    assert forall p :: 0 <= p <= |slots| ==> Cell(raised, p) == Cell(groups, p);
    forall key <- at ensures Reached(k, raised, hash(key), at[key] / SIZE) {
      RaisedReached(k, groups, raised, hash(key), at[key] / SIZE);
    }
  }

  lemma SetCellIs(k: nat, groups: seq<Group>, p: nat, c: int)
    requires Shaped(k, groups) && p < SIZE * |groups|
    ensures Shaped(k, SetCell(groups, p, c))
    ensures forall q: nat :: q < SIZE * |groups| ==> Cell(SetCell(groups, p, c), q) == if q == p then c else Cell(groups, q)
    ensures forall g :: 0 <= g < |groups| ==> SetCell(groups, p, c)[g].ofw == groups[g].ofw
  {
    forall q: nat | q < SIZE * |groups| ensures Cell(SetCell(groups, p, c), q) == if q == p then c else Cell(groups, q) {
      if q / SIZE == p / SIZE && q % SIZE == p % SIZE {
        assert q == p;
      }
    }
  }

  lemma SameBitsReached(k: nat, groups: seq<Group>, other: seq<Group>, hash: nat, g: int)
    requires Shaped(k, groups) && Shaped(k, other) && Reached(k, groups, hash, g)
    requires forall h :: 0 <= h < |groups| ==> other[h].ofw == groups[h].ofw
    ensures Reached(k, other, hash, g)
  {
    var t: nat :| ReachedAt(k, groups, hash, g, t);
    assert ReachedAt(k, other, hash, g, t);
  }

  lemma CellFindable<K>(hash: K -> nat, k: nat, groups: seq<Group>, at: map<K, nat>, p: nat, c: int)
    requires Shaped(k, groups) && Findable(hash, k, groups, at) && p < SIZE * |groups|
    ensures Shaped(k, SetCell(groups, p, c)) && Findable(hash, k, SetCell(groups, p, c), at)
  {
    SetCellIs(k, groups, p, c);
    forall key <- at ensures Reached(k, SetCell(groups, p, c), hash(key), at[key] / SIZE) {
      SameBitsReached(k, groups, SetCell(groups, p, c), hash(key), at[key] / SIZE);
    }
  }

  lemma CellMirrors<K, V>(hash: K -> nat, k: nat, groups: seq<Group>, slots: seq<Slot<K, V>>, p: nat, slot: Slot<K, V>)
    requires Mirrors(hash, k, groups, slots) && p < |slots|
    ensures Mirrors(hash, k, SetCell(groups, p, if slot.Raw? then EMPTY else Mark(hash(slot.key))), slots[p := slot])
  {
    SetCellIs(k, groups, p, if slot.Raw? then EMPTY else Mark(hash(slot.key)));
  }

  lemma StoreIndexed<K, V>(slots: seq<Slot<K, V>>, at: map<K, nat>, p: nat, key: K, value: V)
    requires Indexed(slots, at) && p < |slots| && slots[p].Raw? && key !in at
    ensures Indexed(slots[p := Live(key, value)], at[key := p])
    ensures Contents(slots[p := Live(key, value)], at[key := p]) == Contents(slots, at)[key := value]
  {
    assert forall other <- at :: at[other] != p;
  }

  lemma EraseIndexed<K, V>(slots: seq<Slot<K, V>>, at: map<K, nat>, p: nat)
    requires Indexed(slots, at) && p < |slots| && slots[p].Live?
    ensures Indexed(slots[p := Raw], at - {slots[p].key})
    ensures Contents(slots[p := Raw], at - {slots[p].key}) == Contents(slots, at) - {slots[p].key}
  {
    assert forall other <- at - {slots[p].key} :: at[other] != p;
  }

  /** Constructing a pair in an empty slot that probing reaches adds its key and changes nothing else. */
  lemma StoreKeeps<K, V>(hash: K -> nat, k: nat, groups: seq<Group>, slots: seq<Slot<K, V>>, at: map<K, nat>, p: nat, key: K, value: V)
    requires Stored(hash, k, groups, slots, at)
    requires p < |slots| && slots[p].Raw? && key !in at && Reached(k, groups, hash(key), p / SIZE)
    ensures Stored(hash, k, SetCell(groups, p, Mark(hash(key))), slots[p := Live(key, value)], at[key := p])
    ensures Contents(slots[p := Live(key, value)], at[key := p]) == Contents(slots, at)[key := value]
  {
    StoreIndexed(slots, at, p, key, value);
    CellMirrors(hash, k, groups, slots, p, Live(key, value));
    CellFindable(hash, k, groups, at[key := p], p, Mark(hash(key)));
  }

  lemma AssignKeeps<K, V>(hash: K -> nat, k: nat, groups: seq<Group>, slots: seq<Slot<K, V>>, at: map<K, nat>, key: K, value: V)
    requires Stored(hash, k, groups, slots, at) && key in at
    ensures Stored(hash, k, groups, slots[at[key] := Live(key, value)], at)
    ensures Contents(slots[at[key] := Live(key, value)], at) == Contents(slots, at)[key := value]
  {
  }

  /** Clearing a cell leaves every other key reachable, since overflow bits stay. */
  lemma EraseKeeps<K, V>(hash: K -> nat, k: nat, groups: seq<Group>, slots: seq<Slot<K, V>>, at: map<K, nat>, p: nat)
    requires Stored(hash, k, groups, slots, at) && p < |slots| && slots[p].Live?
    ensures Stored(hash, k, SetCell(groups, p, EMPTY), slots[p := Raw], at - {slots[p].key})
    ensures Contents(slots[p := Raw], at - {slots[p].key}) == Contents(slots, at) - {slots[p].key}
  {
    EraseIndexed(slots, at, p);
    CellMirrors(hash, k, groups, slots, p, Raw);
    CellFindable(hash, k, groups, at - {slots[p].key}, p, EMPTY);
  }

  /** Fewer keys than slots leave an unconstructed slot. */
  lemma RoomLeft<K, V>(slots: seq<Slot<K, V>>, at: map<K, nat>) returns (p: nat)
    requires Indexed(slots, at) && |at| < |slots|
    ensures p < |slots| && slots[p].Raw?
  {
    assert |at.Keys| == |at|;
    if forall q :: 0 <= q < |slots| ==> slots[q].Live? {
      var keys := seq(|slots|, i requires 0 <= i < |slots| => slots[i].key);
      assert forall i, j :: 0 <= i < j < |keys| ==> at[keys[i]] == i && at[keys[j]] == j;
      DistinctSize(keys);
      SubsetSize(Elements(keys), at.Keys);
      assert false;
    }
    p :| p < |slots| && slots[p].Raw?;
  }

  /** The first `i` steps of the walk for `hash` do not meet group `g`. */
  ghost predicate Missed(k: nat, hash: nat, g: int, i: nat) {
    forall u: nat :: u < i ==> Probe(Home(hash, k), u, Pow2(k)) != g
  }

  lemma MissedNext(k: nat, hash: nat, g: int, i: nat)
    requires Missed(k, hash, g, i)
    ensures Missed(k, hash, g, i + 1) <==> Probe(Home(hash, k), i, Pow2(k)) != g
  {
  }

  /** Probing for a stored key meets its group before it stops at one without the overflow bit. */
  lemma MetBeforeStop<K>(hash: K -> nat, k: nat, groups: seq<Group>, at: map<K, nat>, key: K, i: nat)
    requires Shaped(k, groups) && Findable(hash, k, groups, at) && key in at
    requires !Overflowed(groups[Probe(Home(hash(key), k), i, Pow2(k))], hash(key))
    ensures !Missed(k, hash(key), at[key] / SIZE, i + 1)
  {
    var t: nat :| ReachedAt(k, groups, hash(key), at[key] / SIZE, t);
    assert t <= i;
  }

  lemma MetInRound<K>(hash: K -> nat, k: nat, groups: seq<Group>, at: map<K, nat>, key: K)
    requires Shaped(k, groups) && Findable(hash, k, groups, at) && key in at
    ensures !Missed(k, hash(key), at[key] / SIZE, |groups|)
  {
    var t: nat :| ReachedAt(k, groups, hash(key), at[key] / SIZE, t);
  }

  // ---------- Growth ----------

  const MIN_BUCKETS: int := 29

  /** The number of groups that `count` buckets and the sentinel need. */
  function GroupsFor(count: int): (n: nat)
    ensures n >= 2 && n * SIZE > count && n * SIZE > MIN_BUCKETS
    ensures (n - 1) * SIZE <= count || (n - 1) * SIZE <= MIN_BUCKETS
  {
    var least := if count > MIN_BUCKETS then count else MIN_BUCKETS;
    (least + SIZE) / SIZE
  }

  function BucketsIn(k: nat): int {
    SIZE * Pow2(k) - 1
  }

  /** The test for growing: `(load + 1) / buckets >= 7 / 8`. */
  predicate Crowded(load: int, buckets: int) {
    8 * (load + 1) >= 7 * buckets
  }

  /** The constructor rounds the group count down, so it delivers the requested buckets only for an exact power of two. */
  lemma ConstructorDeliversIff(count: int)
    ensures var k := FloorLog2(GroupsFor(count)); k >= 1 && (BucketsIn(k) >= count <==> GroupsFor(count) == Pow2(k))
    ensures BucketsIn(FloorLog2(GroupsFor(count))) >= MIN_BUCKETS
  {
    var n := GroupsFor(count);
    FloorLog2Is(n);
    FloorLog2AtLeast(n, 1);
    Pow2Mono(1, FloorLog2(n));
  }

  /** The buckets requested for `elements` at a load of seven eighths. */
  function Wanted(elements: nat): nat {
    (8 * elements + 6) / 7
  }

  /** The last of `elements` insertions finds room exactly if there are enough groups for the buckets requested. */
  lemma EnoughGroupsIff(k: nat, elements: nat)
    requires k >= 1
    ensures !Crowded(elements - 1, BucketsIn(k)) <==> Pow2(k) >= GroupsFor(Wanted(elements))
  {
    assert Pow2(k) == 2 * Pow2(k - 1);
  }

  /** Thirty buckets, or room for fifty-two elements, are asked for and not given. */
  lemma RoundingFallsShort()
    ensures BucketsIn(FloorLog2(GroupsFor(30))) == 29
    ensures Crowded(51, BucketsIn(FloorLog2(GroupsFor(Wanted(52)))))
  {
    assert GroupsFor(Wanted(52)) == 5 && FloorLog2(5) == 1 + FloorLog2(2) && FloorLog2(2) == 1;
    assert Pow2(2) == 2 * Pow2(1);
  }

  /** Growing doubles the groups at least, so the elements of the old table and one more fit without another growth. */
  lemma GrowthLeavesRoom(k: nat, count: int, load: int, moved: int, grown: nat)
    requires count >= 2 * SIZE * Pow2(k) - 1 && 8 * load < 7 * BucketsIn(k) && moved <= load
    requires grown >= FloorLog2(GroupsFor(count))
    ensures grown > k && Pow2(grown) >= 2 * Pow2(k) && !Crowded(moved, BucketsIn(grown))
  {
    assert Pow2(k + 1) == 2 * Pow2(k);
    assert GroupsFor(count) >= Pow2(k + 1);
    FloorLog2AtLeast(GroupsFor(count), k + 1);
    Pow2Mono(k + 1, grown);
    assert Pow2(grown) >= 2 * Pow2(k);
  }
}
