/** `FlatMap`: insertion, growth and erasure over the slot table. */
module FlatMaps {
  import opened ProbeSequence
  import opened Counting
  import opened FlatTables
  import opened Wrappers

  /** The first empty cell of a group. */
  method GetEmptyBucket(g: Group) returns (i: int)
    requires GroupOk(g)
    ensures i == INVALID ==> EMPTY !in g.cells
    ensures i != INVALID ==> 0 <= i < SIZE && g.cells[i] == EMPTY && EMPTY !in g.cells[..i]
  {
    i := 0;
    while i < SIZE
      invariant 0 <= i <= SIZE && EMPTY !in g.cells[..i]
    {
      if g.cells[i] == EMPTY { return; }
      i := i + 1;
    }
    i := INVALID;
  }

  /** The first cell after `start` that is not empty; the sentinel counts. */
  method NextFilledBucket(g: Group, start: int) returns (i: int)
    requires GroupOk(g) && -1 <= start < SIZE
    ensures i == INVALID ==> forall c :: start < c < SIZE ==> g.cells[c] == EMPTY
    ensures i != INVALID ==> start < i < SIZE && g.cells[i] != EMPTY && forall c :: start < c < i ==> g.cells[c] == EMPTY
  {
    i := start + 1;
    while i < SIZE
      invariant start < i <= SIZE && forall c :: start < c < i ==> g.cells[c] == EMPTY
    {
      if g.cells[i] != EMPTY { return; }
      i := i + 1;
    }
    i := INVALID;
  }

  function Bumped(g: Group, hash: nat): (r: Group)
    requires GroupOk(g)
    ensures GroupOk(r) && Overflowed(r, hash)
  {
    g.(ofw := g.ofw[Bit(hash) := true])
  }

  lemma BucketIndex(k: nat, groups: seq<Group>, g: nat, c: nat)
    requires Shaped(k, groups) && g < |groups| && c < SIZE
    ensures var p := SIZE * g + c; p < SIZE * |groups| && p / SIZE == g && p % SIZE == c && Cell(groups, p) == groups[g].cells[c]
  {
  }

  /** Bucket `p` is the first empty one that probing for `hash` reaches. */
  ghost predicate Chosen(k: nat, groups: seq<Group>, hash: nat, p: int) {
    && Shaped(k, groups)
    && 0 <= p < SIZE * |groups|
    && Cell(groups, p) == EMPTY && EMPTY !in groups[p / SIZE].cells[..p % SIZE]
    && exists t: nat :: ReachedAt(k, groups, hash, p / SIZE, t) && FullUpTo(k, groups, hash, t)
  }

  lemma ChosenAt(k: nat, groups: seq<Group>, hash: nat, g: nat, c: nat, t: nat)
    requires Shaped(k, groups) && ReachedAt(k, groups, hash, g, t) && FullUpTo(k, groups, hash, t)
    requires c < SIZE && groups[g].cells[c] == EMPTY && EMPTY !in groups[g].cells[..c]
    ensures Chosen(k, groups, hash, SIZE * g + c)
  {
    BucketIndex(k, groups, g, c);
  }

  /** The first `i` groups of the walk are full and marked as overflowed. */
  ghost predicate Seeking(k: nat, was: seq<Group>, groups: seq<Group>, hash: nat, i: nat) {
    && Shaped(k, was) && Shaped(k, groups) && Raised(was, groups)
    && Passed(k, groups, hash, i) && FullUpTo(k, groups, hash, i) && OnlyMarked(was, groups, hash)
  }

  /** Full groups may have got the overflow bit of the hash, and nothing else has changed. */
  ghost predicate OnlyMarked(was: seq<Group>, groups: seq<Group>, hash: nat) {
    |groups| == |was| && forall g :: 0 <= g < |was| && GroupOk(was[g]) ==>
      groups[g] == was[g] || (EMPTY !in was[g].cells && groups[g] == Group(was[g].ofw[Bit(hash) := true], was[g].cells))
  }

  ghost predicate FullUpTo(k: nat, groups: seq<Group>, hash: nat, i: nat)
    requires Shaped(k, groups)
  {
    forall u: nat :: u < i ==> EMPTY !in groups[Probe(Home(hash, k), u, Pow2(k))].cells
  }

  lemma BumpKeeps(k: nat, was: seq<Group>, groups: seq<Group>, hash: nat, i: nat, g: nat)
    requires Seeking(k, was, groups, hash, i) && g == Probe(Home(hash, k), i, Pow2(k)) && EMPTY !in groups[g].cells
    ensures Seeking(k, was, groups[g := Bumped(groups[g], hash)], hash, i + 1)
  {
    var bumped := groups[g := Bumped(groups[g], hash)];
    assert forall h :: 0 <= h < |groups| ==> bumped[h].cells == groups[h].cells;
  }

  ghost predicate NoEmpty(groups: seq<Group>) {
    forall g :: 0 <= g < |groups| ==> EMPTY !in groups[g].cells
  }

  /** Every group of the walk's first round being full means no cell is empty. */
  lemma AllFull(k: nat, groups: seq<Group>, hash: nat)
    requires Shaped(k, groups) && FullUpTo(k, groups, hash, Pow2(k))
    ensures NoEmpty(groups)
  {
    forall g | 0 <= g < |groups| ensures EMPTY !in groups[g].cells {
      var u := ProbeOnto(Home(hash, k), g, k);
    }
  }

  /** What the search for an empty bucket gives: one that probing reaches, or none only if no cell is empty. */
  ghost predicate Sought(k: nat, was: seq<Group>, groups: seq<Group>, hash: nat, p: int) {
    && Shaped(k, groups) && Raised(was, groups) && OnlyMarked(was, groups, hash)
    && if p == INVALID then NoEmpty(groups) else Chosen(k, groups, hash, p)
  }

  lemma FoundAt(k: nat, was: seq<Group>, groups: seq<Group>, hash: nat, i: nat, g: nat, c: nat)
    requires Seeking(k, was, groups, hash, i) && i < |groups| && g == Probe(Home(hash, k), i, Pow2(k))
    requires c < SIZE && groups[g].cells[c] == EMPTY && EMPTY !in groups[g].cells[..c]
    ensures Sought(k, was, groups, hash, SIZE * g + c)
  {
    assert ReachedAt(k, groups, hash, g, i);
    ChosenAt(k, groups, hash, g, c, i);
  }

  lemma NotFound(k: nat, was: seq<Group>, groups: seq<Group>, hash: nat)
    requires Seeking(k, was, groups, hash, |groups|)
    ensures Sought(k, was, groups, hash, INVALID)
  {
    AllFull(k, groups, hash);
  }

  /** The first empty bucket of the walk for a hash; the full groups before it get the overflow bit. After it is found
      the walk goes on to the last group that may hold the hash, and changes nothing. */
  method ProbeEmptyIndex(k: nat, metadata: seq<Group>, h: nat) returns (p: int, groups: seq<Group>)
    requires Shaped(k, metadata)
    ensures Sought(k, metadata, groups, h, p)
  {
    groups := metadata;
    var (curr, i) := (Home(h, k), 0);
    var (emptyGroup, emptyBucket) := (INVALID, INVALID);
    while i < |groups|
      invariant 0 <= i <= |groups| && curr == Probe(Home(h, k), i, Pow2(k)) && Shaped(k, groups)
      invariant emptyGroup == INVALID ==> Seeking(k, metadata, groups, h, i)
      invariant emptyGroup != INVALID ==> emptyGroup >= 0 && emptyBucket >= 0
      invariant emptyGroup != INVALID ==> Sought(k, metadata, groups, h, SIZE * emptyGroup + emptyBucket)
    {
      var tentative := GetEmptyBucket(groups[curr]);
      if tentative != INVALID && emptyGroup == INVALID {
        FoundAt(k, metadata, groups, h, i, curr, tentative);
        emptyGroup, emptyBucket := curr, tentative;
      }
      if !Overflowed(groups[curr], h) && emptyGroup != INVALID {
        break;
      } else if emptyGroup == INVALID {
        BumpKeeps(k, metadata, groups, h, i, curr);
        groups := groups[curr := Bumped(groups[curr], h)];
      }
      curr, i := Jump(curr, i + 1, |groups|), i + 1;
    }
    if emptyGroup != INVALID {
      p := SIZE * emptyGroup + emptyBucket;
    } else {
      p := INVALID;
      NotFound(k, metadata, groups, h);
    }
  }

  /** Every cell strictly between two buckets is empty. */
  ghost predicate Vacant(k: nat, groups: seq<Group>, lo: int, hi: int)
    requires Shaped(k, groups)
  {
    -1 <= lo && hi <= SIZE * |groups| && forall q :: lo < q < hi ==> Cell(groups, q) == EMPTY
  }

  /** The scan stands at a filled cell, or one before the end of the cells. */
  ghost predicate Stopped(k: nat, groups: seq<Group>, lo: int, g: int, c: int)
    requires Shaped(k, groups)
  {
    && Vacant(k, groups, lo, SIZE * g + c)
    && if c == INVALID then g == |groups| else 0 <= c < SIZE && lo < SIZE * g + c && 0 <= g < |groups| && Cell(groups, SIZE * g + c) != EMPTY
  }

  /** Bucket `p` is the first one after `lo` whose cell is not empty, or the sentinel's. */
  ghost predicate Follows(k: nat, groups: seq<Group>, lo: int, p: int) {
    && Shaped(k, groups)
    && lo < p < SIZE * |groups|
    && Vacant(k, groups, lo, p)
    && (p == SIZE * |groups| - 1 || Cell(groups, p) != EMPTY)
  }

  lemma StoppedFollows(k: nat, groups: seq<Group>, lo: int, g: int, c: int)
    requires Shaped(k, groups) && Stopped(k, groups, lo, g, c) && -1 <= lo < SIZE * |groups| - 1
    ensures Follows(k, groups, lo, SIZE * g + c)
  {
  }

  lemma FollowsLive<K, V>(hash: K -> nat, k: nat, groups: seq<Group>, slots: seq<Slot<K, V>>, lo: int, p: int)
    requires Mirrors(hash, k, groups, slots) && Follows(k, groups, lo, p)
    ensures p <= |slots| && (p < |slots| ==> slots[p].Live?) && forall q :: lo < q < p ==> slots[q].Raw?
  {
    assert forall q :: lo < q < p ==> Cell(groups, q) == EMPTY;
  }

  lemma ScanGroup(k: nat, groups: seq<Group>, lo: int, g: nat, c: int, next: int)
    requires Shaped(k, groups) && g < |groups| && -1 <= c < next <= SIZE
    requires Vacant(k, groups, lo, SIZE * g + c + 1) && forall b :: c < b < next ==> groups[g].cells[b] == EMPTY
    ensures Vacant(k, groups, lo, SIZE * g + next)
    ensures next < SIZE ==> Cell(groups, SIZE * g + next) == groups[g].cells[next]
  {
    forall q | SIZE * g + c < q < SIZE * g + next ensures Cell(groups, q) == EMPTY {
      assert q / SIZE == g && q % SIZE == q - SIZE * g;
      assert groups[g].cells[q - SIZE * g] == EMPTY;
    }
  }

  /** The first bucket after `last` whose cell is not empty, or the sentinel's. */
  method NextValidIndex(ghost k: nat, groups: seq<Group>, last: int) returns (p: int)
    requires Shaped(k, groups) && -1 <= last
    ensures if last >= SIZE * |groups| - 1 then p == last else Follows(k, groups, last, p)
  {
    if last >= SIZE * |groups| - 1 { return last; }
    var g := if last < 0 then 0 else last / SIZE;
    var c := if last < 0 then last else last % SIZE;
    var more := true;
    while more
      invariant 0 <= g <= |groups| && -1 <= c < SIZE && last <= SIZE * g + c
      invariant if more then g < |groups| && Vacant(k, groups, last, SIZE * g + c + 1) else Stopped(k, groups, last, g, c)
      decreases |groups| - g, more
    {
      var next := NextFilledBucket(groups[g], c);
      ScanGroup(k, groups, last, g, c, if next == INVALID then SIZE else next);
      c := next;
      if c == INVALID { g := g + 1; }
      more := c == INVALID && g < |groups|;
    }
    StoppedFollows(k, groups, last, g, c);
    p := SIZE * g + c;
  }

  // ---------- The state of a map ----------

  /** The fields of a map, with the slot of each stored key and the erasures since the table was last cleared or rebuilt. */
  datatype State<K, V> = State(k: nat, size: int, load: int, groups: seq<Group>, slots: seq<Slot<K, V>>, at: map<K, nat>, erased: nat)

  ghost predicate Ok<K, V>(hash: K -> nat, s: State<K, V>) {
    && s.k >= 1
    && Stored(hash, s.k, s.groups, s.slots, s.at)
    && |s.at| <= s.load
    && 8 * s.load < 7 * |s.slots|
    && s.size == |s.at| + s.erased
  }

  ghost function Pairs<K, V>(s: State<K, V>): map<K, V>
    requires Indexed(s.slots, s.at)
  {
    Contents(s.slots, s.at)
  }

  ghost function Placed<K, V>(s: State<K, V>, raised: seq<Group>, p: nat, mark: int, key: K, value: V): State<K, V>
    requires p < |s.slots| && p < SIZE * |raised| && GroupOk(raised[p / SIZE])
  {
    State(s.k, s.size + 1, s.load + 1, SetCell(raised, p, mark), s.slots[p := Live(key, value)], s.at[key := p], s.erased)
  }

  const BLANK: Group := Group(seq(8, _ => false), seq(SIZE, _ => EMPTY))
  const LAST: Group := BLANK.(cells := BLANK.cells[SIZE - 1 := SENTINEL])

  /** Blank groups, the last one closed by the sentinel, and unconstructed slots make an empty map. */
  lemma BlankOk<K, V>(hash: K -> nat, s: State<K, V>)
    requires s.k >= 1 && |s.groups| == Pow2(s.k) && |s.slots| == BucketsIn(s.k)
    requires forall g :: 0 <= g < |s.groups| ==> s.groups[g] == if g == |s.groups| - 1 then LAST else BLANK
    requires forall p :: 0 <= p < |s.slots| ==> s.slots[p].Raw?
    requires s.size == 0 && s.load == 0 && s.at == map[] && s.erased == 0
    ensures Ok(hash, s) && Pairs(s) == map[]
  {
    Pow2Mono(1, s.k);
  }

  /** A map below its load limit always has an empty slot, so probing for one succeeds. */
  lemma ProbingSucceeds<K, V>(hash: K -> nat, s: State<K, V>, raised: seq<Group>, p: int, h: nat)
    requires Ok(hash, s) && Sought(s.k, s.groups, raised, h, p)
    ensures 0 <= p < |s.slots| && s.slots[p].Raw? && Reached(s.k, raised, h, p / SIZE)
  {
    var room := RoomLeft(s.slots, s.at);
    assert Cell(s.groups, room) == EMPTY && Cell(s.groups, room) in raised[room / SIZE].cells;
    assert Cell(raised, |s.slots|) == Cell(s.groups, |s.slots|);
    assert 0 <= p < |s.slots| ==> Cell(raised, p) == Cell(s.groups, p);
  }

  lemma PlaceKeeps<K, V>(hash: K -> nat, s: State<K, V>, raised: seq<Group>, p: nat, key: K, value: V)
    requires Ok(hash, s) && Raised(s.groups, raised) && key !in s.at && !Crowded(s.load, |s.slots|)
    requires p < |s.slots| && s.slots[p].Raw? && Shaped(s.k, raised) && Reached(s.k, raised, hash(key), p / SIZE)
    ensures var r := Placed(s, raised, p, Mark(hash(key)), key, value);
      Ok(hash, r) && Pairs(r) == Pairs(s)[key := value] && |r.at| == |s.at| + 1
  {
    RaiseKeeps(hash, s.k, s.groups, raised, s.slots, s.at);
    StoreKeeps(hash, s.k, raised, s.slots, s.at, p, key, value);
  }

  ghost function Reassigned<K, V>(s: State<K, V>, p: nat, value: V): State<K, V>
    requires p < |s.slots| && s.slots[p].Live?
  {
    s.(slots := s.slots[p := s.slots[p].(value := value)])
  }

  lemma ReassignKeeps<K, V>(hash: K -> nat, s: State<K, V>, key: K, value: V)
    requires Ok(hash, s) && key in s.at
    ensures var r := Reassigned(s, s.at[key], value); Ok(hash, r) && Pairs(r) == Pairs(s)[key := value]
  {
    AssignKeeps(hash, s.k, s.groups, s.slots, s.at, key, value);
  }

  ghost function Erased<K, V>(s: State<K, V>, p: nat, load: int): State<K, V>
    requires p < |s.slots| && s.slots[p].Live? && p < SIZE * |s.groups| && GroupOk(s.groups[p / SIZE])
  {
    State(s.k, s.size, load, SetCell(s.groups, p, EMPTY), s.slots[p := Raw], s.at - {s.slots[p].key}, s.erased + 1)
  }

  lemma EraseOk<K, V>(hash: K -> nat, s: State<K, V>, p: nat, load: int)
    requires Ok(hash, s) && p < |s.slots| && s.slots[p].Live? && s.load - 1 <= load <= s.load
    ensures var r := Erased(s, p, load); Ok(hash, r) && Pairs(r) == Pairs(s) - {s.slots[p].key} && |r.at| == |s.at| - 1
  {
    EraseKeeps(hash, s.k, s.groups, s.slots, s.at, p);
    OneLess(s.at, s.slots[p].key);
  }

  lemma OneLess<K, V>(m: map<K, V>, key: K)
    requires key in m
    ensures |m - {key}| == |m| - 1
  {
    assert (m - {key}).Keys == m.Keys - {key};
    assert |m - {key}| == |(m - {key}).Keys| && |m| == |m.Keys|;
  }

  /** The pairs in the first `p` slots. */
  ghost function Prefix<K, V>(slots: seq<Slot<K, V>>, at: map<K, nat>, p: int): map<K, V>
    requires Indexed(slots, at)
  {
    map key <- at | at[key] < p :: slots[at[key]].value
  }

  lemma PrefixGrows<K, V>(slots: seq<Slot<K, V>>, at: map<K, nat>, p: nat)
    requires Indexed(slots, at) && p < |slots| && slots[p].Live?
    ensures slots[p].key !in Prefix(slots, at, p) && |Prefix(slots, at, p)| < |at|
    ensures Prefix(slots, at, p + 1) == Prefix(slots, at, p)[slots[p].key := slots[p].value]
  {
    var key := slots[p].key;
    assert forall other <- at :: at[other] == p ==> other == key;
    SubsetSize(Prefix(slots, at, p).Keys, at.Keys - {key});
    assert |Prefix(slots, at, p)| == |Prefix(slots, at, p).Keys|;
  }

  lemma PrefixSkips<K, V>(slots: seq<Slot<K, V>>, at: map<K, nat>, p: nat, q: int)
    requires Indexed(slots, at) && p <= q <= |slots| && forall i :: p <= i < q ==> slots[i].Raw?
    ensures Prefix(slots, at, q) == Prefix(slots, at, p)
  {
    assert forall key <- at :: at[key] < q ==> at[key] < p;
  }

  lemma PrefixStep<K, V>(slots: seq<Slot<K, V>>, at: map<K, nat>, p: nat, q: int)
    requires Indexed(slots, at) && p < q <= |slots| && slots[p].Live? && forall i :: p < i < q ==> slots[i].Raw?
    ensures Prefix(slots, at, q) == Prefix(slots, at, p)[slots[p].key := slots[p].value]
  {
    PrefixGrows(slots, at, p);
    PrefixSkips(slots, at, p + 1, q);
  }

  lemma PrefixAll<K, V>(slots: seq<Slot<K, V>>, at: map<K, nat>)
    requires Indexed(slots, at)
    ensures Prefix(slots, at, |slots|) == Contents(slots, at)
  {
  }

  /** The power of two the constructor picks for `size` stored elements and `count` requested buckets. */
  function Power(size: int, count: int): nat {
    FloorLog2(GroupsFor(if size > count then size else count))
  }

  /** The pairs of the first `p` slots of `s` have been moved to `next`, and slot `p` is the next to move. */
  ghost predicate Moving<K, V>(hash: K -> nat, s: State<K, V>, next: State<K, V>, p: int, count: int) {
    && Ok(hash, s) && Ok(hash, next)
    && 0 <= p <= |s.slots| && (p < |s.slots| ==> s.slots[p].Live?)
    && Pairs(next) == Prefix(s.slots, s.at, p)
    && next.load == |next.at| && next.erased == 0
    && GrownAsNeeded(next, Power(s.size, count))
  }

  /** A table made with power `k0` has grown exactly if its pairs do not fit below the load limit of `k0`. */
  ghost predicate GrownAsNeeded<K, V>(s: State<K, V>, k0: nat) {
    s.k >= k0 && (s.k > k0 <==> Outgrows(k0, |s.at|))
  }

  /** Inserting `n` pairs one by one into an empty table with power `k` makes it grow. */
  predicate Outgrows(k: nat, n: int) {
    n > 0 && Crowded(n - 1, BucketsIn(k))
  }

  /** A map that is being rebuilt with doubled groups never reaches its load limit, so it never grows again. */
  lemma RoomFor<K, V>(hash: K -> nat, s: State<K, V>, next: State<K, V>, p: int, count: int)
    requires Moving(hash, s, next, p, count)
    ensures |next.at| <= |s.at|
    ensures count >= 2 * |s.groups| * SIZE - 1 ==> next.k > s.k && !Crowded(next.load, |next.slots|)
    ensures p < |s.slots| ==> s.slots[p].key !in next.at
  {
    SubsetSize(next.at.Keys, s.at.Keys);
    assert |next.at| == |next.at.Keys| && |s.at| == |s.at.Keys|;
    if p < |s.slots| { PrefixGrows(s.slots, s.at, p); }
    if count >= 2 * |s.groups| * SIZE - 1 {
      GrowthLeavesRoom(s.k, if s.size > count then s.size else count, s.load, next.load, next.k);
    }
  }

  lemma MoveStart<K, V>(hash: K -> nat, s: State<K, V>, next: State<K, V>, p: int, count: int)
    requires Ok(hash, s) && Ok(hash, next) && next.at == map[] && next.load == 0 && next.erased == 0
    requires next.k == Power(s.size, count)
    requires 0 <= p <= |s.slots| && (p < |s.slots| ==> s.slots[p].Live?) && forall q :: 0 <= q < p ==> s.slots[q].Raw?
    ensures Moving(hash, s, next, p, count)
  {
    PrefixSkips(s.slots, s.at, 0, p);
    assert Prefix(s.slots, s.at, p) == map[];
  }

  lemma MoveStep<K, V>(hash: K -> nat, s: State<K, V>, next: State<K, V>, after: State<K, V>, p: nat, q: int, count: int)
    requires Moving(hash, s, next, p, count) && p < q <= |s.slots| && (q < |s.slots| ==> s.slots[q].Live?)
    requires forall i :: p < i < q ==> s.slots[i].Raw?
    requires Ok(hash, after) && after.load == |after.at| == |next.at| + 1 && after.erased == 0
    requires after.k >= next.k && (after.k > next.k <==> Crowded(next.load, |next.slots|))
    requires Pairs(after) == Pairs(next)[s.slots[p].key := s.slots[p].value]
    ensures Moving(hash, s, after, q, count)
  {
    PrefixStep(s.slots, s.at, p, q);
    StillAsNeeded(hash, next, after, Power(s.size, count));
  }

  lemma StillAsNeeded<K, V>(hash: K -> nat, s: State<K, V>, after: State<K, V>, k0: nat)
    requires Ok(hash, s) && s.load == |s.at| && GrownAsNeeded(s, k0) && |after.at| == |s.at| + 1
    requires after.k >= s.k && (after.k > s.k <==> Crowded(s.load, |s.slots|))
    ensures GrownAsNeeded(after, k0)
  {
    assert |s.slots| == BucketsIn(s.k);
  }

  lemma Moved<K, V>(hash: K -> nat, s: State<K, V>, next: State<K, V>, count: int)
    requires Moving(hash, s, next, |s.slots|, count)
    ensures Pairs(next) == Pairs(s) && |next.at| == |s.at|
  {
    PrefixAll(s.slots, s.at);
    assert next.at.Keys == s.at.Keys;
    assert |next.at| == |next.at.Keys| && |s.at| == |s.at.Keys|;
  }

  /** Growing doubles the groups exactly, unless the reported size has drifted beyond the doubled table. */
  lemma DoublesOnce(k: nat, m: nat, size: int, load: int, n: int, count: int, after: nat)
    requires m == Pow2(k) && count == 2 * m * SIZE - 1 && size <= count && 8 * load < 7 * BucketsIn(k) && n <= load
    requires var k0 := Power(size, count); after >= k0 && (after > k0 <==> Outgrows(k0, n))
    ensures after == k + 1
  {
    assert Pow2(k + 1) == 2 * m;
    assert GroupsFor(count) == Pow2(k + 1);
    FloorLog2Pow2(k + 1);
    GrowthLeavesRoom(k, count, load, n, k + 1);
  }

  lemma {:induction false} FloorLog2Pow2(k: nat)
    ensures FloorLog2(Pow2(k)) == k
  {
    if k > 0 { FloorLog2Pow2(k - 1); }
  }

  /** From `n` pairs the table can reach `elements` pairs without growing. */
  ghost predicate NoGrowth(k: nat, n: int, elements: int) {
    forall load :: n <= load < elements ==> !Crowded(load, BucketsIn(k))
  }

  lemma LastDecides(k: nat, n: int, elements: int)
    ensures NoGrowth(k, n, elements) <==> elements <= n || !Crowded(elements - 1, BucketsIn(k))
  {
  }

  /** After `i` insertions into a table with power `k0` and `n` pairs the power is `k`. */
  ghost predicate GrownSince(k0: nat, n: int, i: int, k: nat) {
    k >= k0 && (k > k0 <==> i > 0 && Crowded(n + i - 1, BucketsIn(k0)))
  }

  /** One insertion into a table with power `k` and load `load` leaves power `after`. */
  ghost predicate GrownOnce(k: nat, load: int, after: nat) {
    after >= k && (after > k <==> Crowded(load, BucketsIn(k)))
  }

  lemma GrownStep(k0: nat, n: int, i: nat, k: nat, after: nat)
    requires GrownSince(k0, n, i, k) && GrownOnce(k, n + i, after)
    ensures GrownSince(k0, n, i + 1, after)
  {
  }

  /** From position `i` on the pairs have distinct keys, none of them in the map. */
  ghost predicate AllNew<K, V>(pairs: seq<(K, V)>, i: nat, m: map<K, V>) {
    && (forall j :: i <= j < |pairs| ==> pairs[j].0 !in m)
    && forall j, l :: i <= j < l < |pairs| ==> pairs[j].0 != pairs[l].0
  }

  lemma AllNewStep<K, V>(pairs: seq<(K, V)>, i: nat, m: map<K, V>)
    requires AllNew(pairs, i, m) && i < |pairs|
    ensures pairs[i].0 !in m && AllNew(pairs, i + 1, m[pairs[i].0 := pairs[i].1])
  {
  }

  lemma SlotCount<K, V>(hash: K -> nat, s: State<K, V>)
    requires Ok(hash, s)
    ensures |s.slots| == BucketsIn(s.k)
  {
  }

  /** There are as many pairs already, or they alone outgrow the table that is made, or its rounded group count is enough. */
  predicate ReserveHolds(size: int, n: int, elements: nat) {
    var k0 := Power(size, Wanted(elements));
    elements <= n || Outgrows(k0, n) || Pow2(k0) >= GroupsFor(Wanted(elements))
  }

  lemma ReserveHoldsIff(k: nat, size: int, n: nat, elements: nat)
    requires var k0 := Power(size, Wanted(elements)); k >= k0 && (k > k0 <==> Outgrows(k0, n))
    ensures NoGrowth(k, n, elements) <==> ReserveHolds(size, n, elements)
  {
    var wanted := Wanted(elements);
    var most := if size > wanted then size else wanted;
    var k0 := Power(size, wanted);
    ConstructorDeliversIff(most);
    FloorLog2Is(GroupsFor(most));
    if k > k0 { Pow2Mono(k0 + 1, k); }
    EnoughGroupsIff(k, elements);
    if n < elements && NoGrowth(k, n, elements) {
      assert !Crowded(elements - 1, BucketsIn(k));
    }
  }

  /** A map that every run keeps: the bucket count is fifteen times a power of two less one, the load covers the stored
      keys and stays below seven eighths, an empty slot exists, and the reported size is off by the erasures. */
  lemma AlwaysRoom<K, V>(hash: K -> nat, s: State<K, V>)
    requires Ok(hash, s)
    ensures |s.slots| == BucketsIn(s.k) && |Pairs(s)| <= s.load && 8 * s.load < 7 * |s.slots|
    ensures s.size == |Pairs(s)| + s.erased
    ensures exists p :: 0 <= p < |s.slots| && s.slots[p].Raw?
  {
    assert |Pairs(s)| == |Pairs(s).Keys| && |s.at| == |s.at.Keys|;
    var p := RoomLeft(s.slots, s.at);
  }

  datatype Op<K, V> =
    | Insert(key: K, value: V)
    | InsertOrAssign(key: K, value: V)
    | Erase(key: K)
    | Find(key: K)
    | Clear
    | Rehash(count: int)
    | Reserve(elements: nat)

  /** What a call answers: whether a pair was inserted, how many were erased, the value found, or nothing. */
  datatype Answer<V> = Inserted(new_: bool) | Removed(count: nat) | Found(value: Option<V>) | Done

  /** What an operation does to the mathematical map. */
  ghost function MapStep<K, V>(m: map<K, V>, op: Op<K, V>): map<K, V> {
    match op
    case Insert(key, value) => if key in m then m else m[key := value]
    case InsertOrAssign(key, value) => m[key := value]
    case Erase(key) => m - {key}
    case Find(_) => m
    case Clear => map[]
    case Rehash(_) => m
    case Reserve(_) => m
  }

  ghost function MapAnswer<K, V>(m: map<K, V>, op: Op<K, V>): Answer<V> {
    match op
    case Insert(key, _) => Inserted(key !in m)
    case InsertOrAssign(key, _) => Inserted(key !in m)
    case Erase(key) => Removed(if key in m then 1 else 0)
    case Find(key) => Found(if key in m then Some(m[key]) else None)
    case Clear => Done
    case Rehash(_) => Done
    case Reserve(_) => Done
  }

  /** The outcome of one call: the mathematical map and answer, and no new erasure unless the call is one. */
  ghost predicate Agrees<K, V>(m: map<K, V>, were: nat, op: Op<K, V>, a: Answer<V>, after: map<K, V>, erased: nat) {
    after == MapStep(m, op) && a == MapAnswer(m, op) && (op.Erase? || erased <= were)
  }

  lemma EraseAgrees<K, V>(m: map<K, V>, were: nat, op: Op<K, V>)
    requires op.Erase?
    ensures var n := if op.key in m then 1 else 0; Agrees(m, were, op, Removed(n), m - {op.key}, were + n)
  {
  }

  lemma RebuildAgrees<K, V>(m: map<K, V>, were: nat, op: Op<K, V>)
    requires op.Rehash? || op.Reserve?
    ensures Agrees(m, were, op, Done, m, 0)
  {
  }

  ghost function MapRun<K, V>(m: map<K, V>, ops: seq<Op<K, V>>): map<K, V> {
    if ops == [] then m else MapStep(MapRun(m, ops[..|ops| - 1]), ops[|ops| - 1])
  }

  /** Call `i` of a run of the mathematical map answers `a`. */
  ghost predicate AnswersAt<K, V>(m: map<K, V>, ops: seq<Op<K, V>>, i: nat, a: Answer<V>)
    requires i < |ops|
  {
    a == MapAnswer(MapRun(m, ops[..i]), ops[i])
  }

  ghost predicate AnswerAll<K, V>(m: map<K, V>, ops: seq<Op<K, V>>, answers: seq<Answer<V>>) {
    |answers| == |ops| && forall i :: 0 <= i < |ops| ==> AnswersAt(m, ops, i, answers[i])
  }

  lemma RunStep<K, V>(m: map<K, V>, ops: seq<Op<K, V>>, answers: seq<Answer<V>>, a: Answer<V>)
    requires ops != [] && AnswerAll(m, ops[..|ops| - 1], answers) && a == MapAnswer(MapRun(m, ops[..|ops| - 1]), ops[|ops| - 1])
    ensures AnswerAll(m, ops, answers + [a])
  {
    forall i | 0 <= i < |answers| ensures AnswersAt(m, ops, i, answers[i]) {
      assert ops[..|ops| - 1][..i] == ops[..i];
      assert AnswersAt(m, ops[..|ops| - 1], i, answers[i]);
    }
  }

  lemma MinusMissing<K, V>(m: map<K, V>, key: K)
    requires key !in m
    ensures m - {key} == m
  {
  }

  ghost predicate NoErase<K, V>(ops: seq<Op<K, V>>, n: nat)
    requires n <= |ops|
  {
    forall i :: 0 <= i < n ==> !ops[i].Erase?
  }

  /** Empty cells mark unconstructed slots. */
  ghost predicate EmptyTells<K, V>(k: nat, groups: seq<Group>, slots: seq<Slot<K, V>>) {
    && Shaped(k, groups) && |slots| == SIZE * |groups| - 1
    && forall p :: 0 <= p < |slots| && Cell(groups, p) == EMPTY ==> slots[p].Raw?
  }

  lemma TellsEmpty<K, V>(hash: K -> nat, s: State<K, V>)
    requires Ok(hash, s)
    ensures EmptyTells(s.k, s.groups, s.slots) && |s.groups| == Pow2(s.k) && |s.slots| == BucketsIn(s.k)
  {
  }

  /** Destroys the pair in every constructed slot. */
  method Destroyed<K, V>(ghost k: nat, groups: seq<Group>, slots: seq<Slot<K, V>>) returns (r: seq<Slot<K, V>>)
    requires EmptyTells(k, groups, slots)
    ensures |r| == |slots| && forall p :: 0 <= p < |r| ==> r[p].Raw?
  {
    r := slots;
    var p := NextValidIndex(k, groups, -1);
    FollowsRaw(k, groups, slots, -1, p);
    while p < |slots|
      invariant |r| == |slots| && 0 <= p <= |slots| && r[p..] == slots[p..]
      invariant forall q :: 0 <= q < p ==> r[q].Raw?
      decreases |slots| - p
    {
      r := r[p := Raw];
      ghost var was := p;
      p := NextValidIndex(k, groups, p);
      FollowsRaw(k, groups, slots, was, p);
      assert forall q :: was < q < p ==> r[q] == slots[q];
    }
  }

  lemma FollowsRaw<K, V>(k: nat, groups: seq<Group>, slots: seq<Slot<K, V>>, lo: int, p: int)
    requires EmptyTells(k, groups, slots) && Follows(k, groups, lo, p)
    ensures p <= |slots| && forall q :: lo < q < p ==> slots[q].Raw?
  {
  }

  /** Resets the metadata of every group and sets the sentinel again. */
  method Reset(groups: seq<Group>) returns (r: seq<Group>)
    requires groups != []
    ensures |r| == |groups| && forall g :: 0 <= g < |r| ==> r[g] == if g == |r| - 1 then LAST else BLANK
  {
    r := groups;
    for g := 0 to |groups|
      invariant |r| == |groups| && forall i :: 0 <= i < g ==> r[i] == BLANK
    {
      r := r[g := BLANK];
    }
    r := r[|r| - 1 := LAST];
  }

  class FlatMap<K(==), V> {
    const hash: K -> nat
    var k: nat
    var size: int
    var load: int
    var groups: seq<Group>
    var slots: seq<Slot<K, V>>
    /** The slot of each stored key. */
    ghost var at: map<K, nat>
    /** Erasures since the table was last cleared or rebuilt. */
    ghost var erased: nat
    /** The mathematical map that is represented. */
    ghost var model: map<K, V>

    ghost function View(): State<K, V>
      reads this
    {
      State(k, size, load, groups, slots, at, erased)
    }

    ghost predicate Valid()
      reads this
    {
      Ok(hash, View()) && model == Pairs(View())
    }

    constructor (hash: K -> nat, bucketCount: int)
      ensures Valid() && this.hash == hash && at == map[] && model == map[]
      ensures size == 0 && load == 0 && erased == 0 && k == FloorLog2(GroupsFor(bucketCount)) && |slots| == BucketsIn(k)
    {
      this.hash := hash;
      ConstructorDeliversIff(bucketCount);
      var power := FloorLog2(GroupsFor(bucketCount));
      k := power;
      size, load, at, erased, model := 0, 0, map[], 0, map[];
      groups := seq(Pow2(power), _ => BLANK)[Pow2(power) - 1 := LAST];
      slots := seq(BucketsIn(power), _ => Raw);
      new;
      BlankOk(hash, View());
    }

    /** The least constructed slot after `last`, or the slot count. */
    method Next(last: int) returns (p: int)
      requires Valid() && -1 <= last < |slots|
      ensures last < p <= |slots| && (p < |slots| ==> slots[p].Live?) && forall q :: last < q < p ==> slots[q].Raw?
    {
      p := NextValidIndex(k, groups, last);
      FollowsLive(hash, k, groups, slots, last, p);
    }

    /** Compares every slot of one group whose cell carries the mark of `key`. A later mismatch resumes probing. */
    method VisitGroup(g: nat, key: K, before: nat) returns (found: nat, keepGoing: bool)
      requires Valid() && g < |groups| && (before == |slots| || (key in at && before == at[key]))
      ensures found == if key in at && at[key] / SIZE == g then at[key] else before
      ensures !keepGoing ==> key in at && found == at[key]
    {
      var c := 0;
      found, keepGoing := before, true;
      while c < SIZE
        invariant 0 <= c <= SIZE
        invariant found == if key in at && at[key] / SIZE == g && at[key] % SIZE < c then at[key] else before
        invariant !keepGoing ==> key in at && found == at[key]
      {
        BucketIndex(k, groups, g, c);
        if groups[g].cells[c] == Mark(hash(key)) {
          if slots[SIZE * g + c].key == key {
            found, keepGoing := SIZE * g + c, false;
          } else {
            keepGoing := true;
          }
        }
        c := c + 1;
      }
    }

    /** The slot of `key`, or the slot count when it is not stored. */
    method Find(key: K) returns (found: nat)
      requires Valid()
      ensures found == if key in at then at[key] else |slots|
    {
      var home := Home(hash(key), k);
      var (curr, i) := (home, 0);
      found := |slots|;
      while i < |groups|
        invariant 0 <= i <= |groups| && curr == Probe(home, i, Pow2(k))
        invariant found == |slots| || (key in at && found == at[key])
        invariant key in at && found == |slots| ==> Missed(k, hash(key), at[key] / SIZE, i)
      {
        if key in at && found == |slots| { MissedNext(k, hash(key), at[key] / SIZE, i); }
        var keepGoing;
        found, keepGoing := VisitGroup(curr, key, found);
        if !Overflowed(groups[curr], hash(key)) {
          keepGoing := false;
          if key in at { MetBeforeStop(hash, k, groups, at, key, i); }
        }
        if !keepGoing { return; }
        curr, i := Jump(curr, i + 1, |groups|), i + 1;
      }
      if key in at { MetInRound(hash, k, groups, at, key); }
    }

    /** The part of insertion after the growth test. */
    method Place(key: K, value: V) returns (p: nat)
      requires Valid() && key !in at && !Crowded(load, |slots|)
      modifies this
      ensures Valid() && key in at && p == at[key] && model == old(model)[key := value]
      ensures k == old(k) && load == old(load) + 1 && |at| == old(|at|) + 1 && erased == old(erased)
    {
      var bucket, raised := ProbeEmptyIndex(k, groups, hash(key));
      ProbingSucceeds(hash, View(), raised, bucket, hash(key));
      PlaceKeeps(hash, View(), raised, bucket, key, value);
      p := bucket;
      FillSlot(raised, p, key, value);
    }

    method FillSlot(raised: seq<Group>, p: nat, key: K, value: V)
      requires p < |slots| && p / SIZE < |raised| && GroupOk(raised[p / SIZE])
      modifies this
      ensures View() == Placed(old(View()), raised, p, Mark(hash(key)), key, value) && model == old(model)[key := value]
    {
      groups := SetCell(raised, p, Mark(hash(key)));
      size, load := size + 1, load + 1;
      slots := slots[p := Live(key, value)];
      at, model := at[key := p], model[key := value];
    }

    /** Insertion. A stored key keeps its slot, and its value unless `assign` is set. */
    method Emplace(key: K, value: V, assign: bool) returns (p: nat, inserted: bool)
      requires Valid()
      modifies this
      ensures Valid() && key in at && p == at[key] && inserted == (key !in old(model))
      ensures model == if inserted || assign then old(model)[key := value] else old(model)
      ensures !inserted ==> unchanged(`k, `load, `at, `erased)
      ensures inserted ==> |at| == old(|at|) + 1
      ensures inserted && !old(Crowded(load, |slots|)) ==> k == old(k) && load == old(load) + 1 && erased == old(erased)
      ensures inserted && old(Crowded(load, |slots|)) ==> k > old(k) && load == |at| && erased == 0
      ensures inserted && old(Crowded(load, |slots|)) && old(size < 2 * |groups| * SIZE) ==> k == old(k) + 1
      decreases if Crowded(load, |slots|) then 5 else 0, 2
    {
      p := Find(key);
      inserted := p == |slots|;
      if inserted {
        p := Add(key, value);
      } else {
        Reassign(key, value, p, assign);
      }
    }

    method Add(key: K, value: V) returns (p: nat)
      requires Valid() && key !in at
      modifies this
      ensures Valid() && key in at && p == at[key] && model == old(model)[key := value] && |at| == old(|at|) + 1
      ensures !old(Crowded(load, |slots|)) ==> k == old(k) && load == old(load) + 1 && erased == old(erased)
      ensures old(Crowded(load, |slots|)) ==> k > old(k) && load == |at| && erased == 0
      ensures old(Crowded(load, |slots|)) && old(size < 2 * |groups| * SIZE) ==> k == old(k) + 1
      decreases if Crowded(load, |slots|) then 5 else 0, 1
    {
      GrowIfCrowded();
      assert key !in model;
      p := Place(key, value);
    }

    /** Rebuilding with twice the groups. */
    method Doubled()
      requires Valid() && Crowded(load, |slots|)
      modifies this
      ensures Valid() && model == old(model) && load == |at| == old(|at|) && erased == 0
      ensures k > old(k) && !Crowded(load, |slots|)
      ensures old(size < 2 * |groups| * SIZE) ==> k == old(k) + 1
      decreases 4
    {
      var count := 2 * |groups| * SIZE - 1;
      ghost var s := View();
      TellsEmpty(hash, s);
      Rebuild(count);
      if s.size <= count { DoublesOnce(s.k, |s.groups|, s.size, s.load, |at|, count, k); }
    }

    /** The growth test of insertion: afterwards one more pair fits. */
    method GrowIfCrowded()
      requires Valid()
      modifies this
      ensures Valid() && model == old(model) && |at| == old(|at|) && !Crowded(load, |slots|)
      ensures if old(Crowded(load, |slots|)) then k > old(k) && load == |at| && erased == 0 else unchanged(this)
      ensures old(Crowded(load, |slots|)) && old(size < 2 * |groups| * SIZE) ==> k == old(k) + 1
      decreases if Crowded(load, |slots|) then 5 else 0, 0
    {
      if Crowded(load, |slots|) {
        Doubled();
      }
    }

    /** The pair of a stored key: its value is replaced only if `assign` is set. */
    method Reassign(key: K, value: V, p: nat, assign: bool)
      requires Valid() && key in at && p == at[key]
      modifies this`slots, this`model
      ensures Valid() && model == if assign then old(model)[key := value] else old(model)
    {
      if assign {
        ReassignKeeps(hash, View(), key, value);
        ghost var r := Reassigned(View(), p, value);
        slots := slots[p := slots[p].(value := value)];
        model := model[key := value];
        assert View() == r;
      }
    }

    /** A rebuilt table holds the same pairs and counts them exactly. Doubling it leaves room for one more pair. */
    method Rebuild(count: int)
      requires Valid()
      modifies this
      ensures Valid() && model == old(model) && load == |at| == old(|at|) && erased == 0
      ensures GrownAsNeeded(View(), Power(old(size), count))
      ensures count >= 2 * old(|groups|) * SIZE - 1 ==> k > old(k) && !Crowded(load, |slots|)
      decreases if count >= 2 * |groups| * SIZE - 1 then 3 else 8
    {
      var next := Copied(count);
      Moved(hash, View(), next.View(), count);
      RoomFor(hash, View(), next.View(), |slots|, count);
      Swap(next);
    }

    /** A new map of at least `count` buckets, up to rounding, filled with the pairs of this one in slot order. */
    method Copied(count: int) returns (next: FlatMap<K, V>)
      requires Valid()
      ensures fresh(next) && next.hash == hash && next.Valid() && Moving(hash, View(), next.View(), |slots|, count)
      decreases if count >= 2 * |groups| * SIZE - 1 then 2 else 7
    {
      next := new FlatMap(hash, if size > count then size else count);
      var p := Next(-1);
      MoveStart(hash, View(), next.View(), p, count);
      while p < |slots|
        invariant unchanged(this) && fresh(next) && next.hash == hash && next.Valid() && p <= |slots| && Moving(hash, View(), next.View(), p, count)
        decreases |slots| - p
      {
        p := MoveOne(next, p, count);
      }
      assert p == |slots|;
    }

    /** Exchanges every field with another map. */
    method Swap(other: FlatMap<K, V>)
      requires other.hash == hash
      modifies this, other
      ensures View() == old(other.View()) && other.View() == old(View())
      ensures model == old(other.model) && other.model == old(model)
    {
      k, other.k := other.k, k;
      size, other.size := other.size, size;
      load, other.load := other.load, load;
      groups, other.groups := other.groups, groups;
      slots, other.slots := other.slots, slots;
      at, other.at := other.at, at;
      erased, other.erased := other.erased, erased;
      model, other.model := other.model, model;
    }

    method MoveOne(next: FlatMap<K, V>, p: nat, count: int) returns (q: int)
      requires Valid() && next != this && next.hash == hash && next.Valid() && p < |slots|
      requires Moving(hash, View(), next.View(), p, count)
      modifies next
      ensures p < q <= |slots| && next.Valid() && Moving(hash, View(), next.View(), q, count)
      decreases if count >= 2 * |groups| * SIZE - 1 then 1 else 6
    {
      RoomFor(hash, View(), next.View(), p, count);
      ghost var before := next.View();
      var _, _ := next.Emplace(slots[p].key, slots[p].value, false);
      q := Next(p);
      MoveStep(hash, View(), before, next.View(), p, q, count);
    }

    /** Erasing a slot forgets its key. The load shrinks only outside a probing sequence, and `size` does not shrink at all. */
    method EraseAt(p: nat) returns (next: int)
      requires Valid() && p < |slots| && slots[p].Live?
      modifies this
      ensures Valid() && model == old(model) - {old(slots[p].key)} && |at| == old(|at|) - 1
      ensures k == old(k) && size == old(size) && erased == old(erased) + 1
      ensures load == old(if Overflowed(groups[p / SIZE], hash(slots[p].key)) then load else load - 1)
      ensures p < next <= |slots| && (next < |slots| ==> slots[next].Live?) && forall q :: p < q < next ==> slots[q].Raw?
    {
      Forget(p);
      next := Next(p);
    }

    method Forget(p: nat)
      requires Valid() && p < |slots| && slots[p].Live?
      modifies this
      ensures Valid() && model == old(model) - {old(slots[p].key)} && |at| == old(|at|) - 1 && |slots| == old(|slots|)
      ensures k == old(k) && size == old(size) && erased == old(erased) + 1
      ensures load == old(if Overflowed(groups[p / SIZE], hash(slots[p].key)) then load else load - 1)
    {
      ghost var left := if Overflowed(groups[p / SIZE], hash(slots[p].key)) then load else load - 1;
      ghost var r := Erased(View(), p, left);
      EraseOk(hash, View(), p, left);
      ClearSlot(p);
      assert View() == r;
    }

    method ClearSlot(p: nat)
      requires p < |slots| && slots[p].Live? && p / SIZE < |groups| && GroupOk(groups[p / SIZE])
      modifies this
      ensures model == old(model) - {old(slots[p].key)}
      ensures View() == old(Erased(View(), p, if Overflowed(groups[p / SIZE], hash(slots[p].key)) then load else load - 1))
    {
      var key := slots[p].key;
      groups := SetCell(groups, p, EMPTY);
      var midSequence := Overflowed(groups[p / SIZE], hash(key));
      slots := slots[p := Raw];
      if !midSequence { load := load - 1; }
      at, erased, model := at - {key}, erased + 1, model - {key};
    }

    method EraseKey(key: K) returns (count: nat)
      requires Valid()
      modifies this
      ensures Valid() && model == old(model) - {key} && k == old(k) && size == old(size)
      ensures count == (if key in old(model) then 1 else 0) && erased == old(erased) + count
    {
      var p := Find(key);
      if p != |slots| {
        var _ := EraseAt(p);
        count := 1;
      } else {
        count := 0;
        MinusMissing(model, key);
      }
    }

    method Clear()
      requires Valid()
      modifies this
      ensures Valid() && model == map[] && k == old(k) && size == 0 && load == 0 && erased == 0
    {
      TellsEmpty(hash, View());
      Wipe();
    }

    method Wipe()
      requires k >= 1 && |groups| == Pow2(k) && |slots| == BucketsIn(k) && EmptyTells(k, groups, slots)
      modifies this
      ensures Valid() && model == map[] && k == old(k) && size == 0 && load == 0 && erased == 0
    {
      slots := Destroyed(k, groups, slots);
      groups := Reset(groups);
      size, load, at, erased, model := 0, 0, map[], 0, map[];
      BlankOk(hash, View());
    }

    /** Reserving keeps its promise, that the map can reach `elements` pairs without growing, exactly under `ReserveHolds`. */
    method ReserveFor(elements: nat)
      requires Valid()
      modifies this
      ensures Valid() && model == old(model) && load == |at| == old(|at|) && erased == 0
      ensures NoGrowth(k, |at|, elements) <==> ReserveHolds(old(size), old(|at|), elements)
    {
      Rebuild(Wanted(elements));
      ReserveHoldsIff(k, old(size), |at|, elements);
    }

    method InsertNew(key: K, value: V)
      requires Valid() && load == |at| && key !in model
      modifies this
      ensures Valid() && load == |at| == old(|at|) + 1 && model == old(model)[key := value]
      ensures GrownOnce(old(k), old(load), k)
    {
      SlotCount(hash, View());
      var _, _ := Emplace(key, value, false);
    }

    /** Inserting a range of new pairs grows the table exactly if the last of them does not fit. */
    method InsertAllNew(pairs: seq<(K, V)>)
      requires Valid() && load == |at| && AllNew(pairs, 0, model)
      modifies this
      ensures Valid() && |at| == old(|at|) + |pairs|
      ensures GrownSince(old(k), old(|at|), |pairs|, k)
    {
      var i := 0;
      while i < |pairs|
        invariant 0 <= i <= |pairs| && Valid() && load == |at| == old(|at|) + i && AllNew(pairs, i, model)
        invariant GrownSince(old(k), old(|at|), i, k)
      {
        ghost var was := k;
        AllNewStep(pairs, i, model);
        InsertNew(pairs[i].0, pairs[i].1);
        GrownStep(old(k), old(|at|), i, was, k);
        i := i + 1;
      }
    }

    /** Reserve, then insert new pairs until there are `elements`: the table grows exactly if `ReserveHolds` fails. */
    method ReserveAndInsert(elements: nat, pairs: seq<(K, V)>) returns (grew: bool)
      requires Valid() && |at| + |pairs| == elements && AllNew(pairs, 0, model)
      modifies this
      ensures Valid() && |at| == elements
      ensures grew <==> !ReserveHolds(old(size), old(|at|), elements)
    {
      ReserveFor(elements);
      LastDecides(k, |at|, elements);
      var reserved := k;
      InsertAllNew(pairs);
      grew := k > reserved;
    }

    /** After one insertion and one erasure the map is empty and still reports one element. */
    method SizeDrifts(key: K, value: V)
      requires Valid() && model == map[] && erased == 0
      modifies this
      ensures Valid() && model == map[] && size == 1
    {
      assert at.Keys == model.Keys;
      var _, _ := Emplace(key, value, false);
      var _ := EraseKey(key);
    }

    method Lookup(key: K) returns (r: Option<V>)
      requires Valid()
      ensures r == if key in model then Some(model[key]) else None
    {
      var p := Find(key);
      r := if p == |slots| then None else Some(slots[p].value);
    }

    method ApplyInsert(op: Op<K, V>) returns (a: Answer<V>)
      requires Valid() && (op.Insert? || op.InsertOrAssign?)
      modifies this
      ensures Valid() && Agrees(old(model), old(erased), op, a, model, erased)
    {
      var p, inserted := Emplace(op.key, op.value, op.InsertOrAssign?);
      a := Inserted(inserted);
    }

    method ApplyErase(op: Op<K, V>) returns (a: Answer<V>)
      requires Valid() && op.Erase?
      modifies this
      ensures Valid() && Agrees(old(model), old(erased), op, a, model, erased)
    {
      EraseAgrees(model, erased, op);
      var count := EraseKey(op.key);
      a := Removed(count);
    }

    method ApplyFind(op: Op<K, V>) returns (a: Answer<V>)
      requires Valid() && op.Find?
      ensures Agrees(model, erased, op, a, model, erased)
    {
      var r := Lookup(op.key);
      a := Found(r);
    }

    method ApplyClear(op: Op<K, V>) returns (a: Answer<V>)
      requires Valid() && op.Clear?
      modifies this
      ensures Valid() && Agrees(old(model), old(erased), op, a, model, erased)
    {
      Clear();
      a := Done;
    }

    method ApplyRebuild(op: Op<K, V>) returns (a: Answer<V>)
      requires Valid() && (op.Rehash? || op.Reserve?)
      modifies this
      ensures Valid() && Agrees(old(model), old(erased), op, a, model, erased)
    {
      RebuildAgrees(model, erased, op);
      Rebuild(if op.Rehash? then op.count else Wanted(op.elements));
      a := Done;
    }

    method Apply(op: Op<K, V>) returns (a: Answer<V>)
      requires Valid()
      modifies this
      ensures Valid() && Agrees(old(model), old(erased), op, a, model, erased)
    {
      if op.Insert? || op.InsertOrAssign? {
        a := ApplyInsert(op);
      } else if op.Erase? {
        a := ApplyErase(op);
      } else if op.Find? {
        a := ApplyFind(op);
      } else if op.Clear? {
        a := ApplyClear(op);
      } else {
        a := ApplyRebuild(op);
      }
    }

    /** Every run answers, call by call, as a mathematical map, and ends with its contents. Without erasures the reported
        size stays exact. */
    method Run(ops: seq<Op<K, V>>) returns (answers: seq<Answer<V>>)
      requires Valid()
      modifies this
      ensures Valid() && model == MapRun(old(model), ops)
      ensures AnswerAll(old(model), ops, answers)
      ensures NoErase(ops, |ops|) && old(erased) == 0 ==> erased == 0
      decreases |ops|
    {
      if ops == [] { return []; }
      var n := |ops| - 1;
      answers := Run(ops[..n]);
      var a := Apply(ops[n]);
      RunStep(old(model), ops, answers, a);
      answers := answers + [a];
    }
  }
}
