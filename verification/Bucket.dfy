/** The storage of a bucket: a fixed block of nodes holding two interleaved index-linked lists, the live
    chain from `head` and the free chain from `free`. */
module NodeStore {
  import opened Chains

  datatype Node<K, V> = Node(next: int, key: K, value: V)

  datatype Store<K, V> = Store(nodes: seq<Node<K, V>>, head: int, free: int, size: int)

  /** What the node at position `i` of a chain links to. */
  ghost function After(p: seq<int>, i: nat): int {
    if i + 1 < |p| then p[i + 1] else -1
  }

  /** Following `next` from `start` visits exactly the indices `p`, in order, and ends at -1. */
  ghost predicate Linked<K, V>(nodes: seq<Node<K, V>>, start: int, p: seq<int>) {
    && start == (if |p| == 0 then -1 else p[0])
    && (forall i :: 0 <= i < |p| ==> 0 <= p[i] < |nodes|)
    && (forall i :: 0 <= i < |p| ==> nodes[p[i]].next == After(p, i))
  }

  ghost predicate Distinct(p: seq<int>) {
    forall i, j :: 0 <= i < j < |p| ==> p[i] != p[j]
  }

  /** The two chains are acyclic, disjoint and together cover every node index exactly once. */
  ghost predicate Partition(n: nat, live: seq<int>, free: seq<int>) {
    && Distinct(live) && Distinct(free)
    && (forall i, j :: 0 <= i < |live| && 0 <= j < |free| ==> live[i] != free[j])
    && |live| + |free| == n
    && (forall x :: 0 <= x < n ==> x in live || x in free)
  }

  ghost predicate WellFormed<K, V>(s: Store<K, V>, live: seq<int>, free: seq<int>) {
    && |s.nodes| > 0
    && Linked(s.nodes, s.head, live)
    && Linked(s.nodes, s.free, free)
    && Partition(|s.nodes|, live, free)
    && s.size == |live|
  }

  ghost function Entries<K, V>(nodes: seq<Node<K, V>>, p: seq<int>): Chain<K, V>
    requires forall i :: 0 <= i < |p| ==> 0 <= p[i] < |nodes|
  {
    seq(|p|, i requires 0 <= i < |p| => Entry(nodes[p[i]].key, nodes[p[i]].value))
  }

  // ---------- The three mutations, as the assignments of the source leave the store ----------

  /** A free node is linked after the tail (or becomes the head) and filled in. */
  function Appended<K, V>(s: Store<K, V>, tail: int, k: K, v: V): Store<K, V>
    requires 0 <= s.free < |s.nodes| && -1 <= tail < |s.nodes|
  {
    var f := s.free;
    var linked := if tail == -1 then s.nodes else s.nodes[tail := s.nodes[tail].(next := f)];
    Store(linked[f := Node(-1, k, v)], if tail == -1 then f else s.head, linked[f].next, s.size + 1)
  }

  function Assigned<K, V>(s: Store<K, V>, at: int, v: V): Store<K, V>
    requires 0 <= at < |s.nodes|
  {
    s.(nodes := s.nodes[at := s.nodes[at].(value := v)])
  }

  /** The node `at`, reached from `prev` (-1 at the head), is moved to the front of the free chain. */
  function Unlinked<K, V>(s: Store<K, V>, prev: int, at: int): Store<K, V>
    requires 0 <= at < |s.nodes| && -1 <= prev < |s.nodes|
  {
    var bypassed := if prev == -1 then s.nodes else s.nodes[prev := s.nodes[prev].(next := s.nodes[at].next)];
    Store(bypassed[at := bypassed[at].(next := s.free)],
          if at == s.head then bypassed[at].next else s.head, at, s.size - 1)
  }

  /** One step along the live chain: it ends exactly at the last position. */
  lemma NextOnChain<K, V>(s: Store<K, V>, live: seq<int>, free: seq<int>, pos: nat)
    requires WellFormed(s, live, free) && pos < |live|
    ensures var next := s.nodes[live[pos]].next;
            if pos + 1 < |live| then next == live[pos + 1] && 0 <= next else next == -1
    ensures Entries(s.nodes, live)[pos] == Entry(s.nodes[live[pos]].key, s.nodes[live[pos]].value)
    ensures 0 <= live[pos] < |s.nodes|
  {
  }

  ghost function Tail(live: seq<int>): int {
    if |live| == 0 then -1 else live[|live| - 1]
  }

  lemma AppendPartition(n: nat, live: seq<int>, free: seq<int>)
    requires Partition(n, live, free) && |free| > 0
    ensures Partition(n, live + [free[0]], free[1..])
  {
    var live', free' := live + [free[0]], free[1..];
    forall x | 0 <= x < n ensures x in live' || x in free' {
      if x in free {
        var j :| 0 <= j < |free| && free[j] == x;
        assert if j == 0 then live'[|live|] == x else free'[j - 1] == x;
      } else {
        assert x in live;
      }
    }
  }

  lemma AppendLinked<K, V>(s: Store<K, V>, live: seq<int>, free: seq<int>, k: K, v: V)
    requires WellFormed(s, live, free) && |free| > 0
    ensures 0 <= s.free < |s.nodes| && -1 <= Tail(live) < |s.nodes|
    ensures var t := Appended(s, Tail(live), k, v);
            Linked(t.nodes, t.head, live + [s.free]) && Linked(t.nodes, t.free, free[1..])
  {
    assert s.free == free[0];
    var t := Appended(s, Tail(live), k, v);
    var live', free' := live + [s.free], free[1..];
    forall j | 0 <= j < |live'| ensures t.nodes[live'[j]].next == After(live', j) {
      if j + 1 < |live| { assert t.nodes[live[j]] == s.nodes[live[j]]; }
    }
    forall j | 0 <= j < |free'| ensures t.nodes[free'[j]].next == After(free', j) {
      assert free'[j] == free[j + 1] && t.nodes[free[j + 1]] == s.nodes[free[j + 1]];
    }
  }

  lemma AppendKeeps<K, V>(s: Store<K, V>, live: seq<int>, free: seq<int>, k: K, v: V)
    requires WellFormed(s, live, free) && s.free != -1
    ensures |free| > 0 && 0 <= s.free < |s.nodes| && -1 <= Tail(live) < |s.nodes|
    ensures var t := Appended(s, Tail(live), k, v);
            && WellFormed(t, live + [s.free], free[1..])
            && Entries(t.nodes, live + [s.free]) == Entries(s.nodes, live) + [Entry(k, v)]
  {
    AppendLinked(s, live, free, k, v);
    AppendPartition(|s.nodes|, live, free);
    var t := Appended(s, Tail(live), k, v);
    assert Entries(t.nodes, live + [s.free]) == Entries(s.nodes, live) + [Entry(k, v)];
  }

  lemma AssignKeeps<K, V>(s: Store<K, V>, live: seq<int>, free: seq<int>, i: nat, v: V)
    requires WellFormed(s, live, free) && i < |live|
    ensures var t := Assigned(s, live[i], v);
            && WellFormed(t, live, free)
            && Entries(t.nodes, live) == Entries(s.nodes, live)[i := Entry(s.nodes[live[i]].key, v)]
  {
    var t := Assigned(s, live[i], v);
    assert Linked(t.nodes, t.head, live);
    assert Linked(t.nodes, t.free, free);
    assert Entries(t.nodes, live) == Entries(s.nodes, live)[i := Entry(s.nodes[live[i]].key, v)];
  }

  lemma UnlinkLive<K, V>(s: Store<K, V>, live: seq<int>, free: seq<int>, i: nat)
    requires WellFormed(s, live, free) && i < |live|
    ensures var t := Unlinked(s, if i == 0 then -1 else live[i - 1], live[i]);
            Linked(t.nodes, t.head, live[..i] + live[i + 1..])
  {
    var t := Unlinked(s, if i == 0 then -1 else live[i - 1], live[i]);
    var live' := live[..i] + live[i + 1..];
    forall j | 0 <= j < |live'| ensures 0 <= live'[j] < |t.nodes| && t.nodes[live'[j]].next == After(live', j) {
      if j < i {
        assert live'[j] == live[j];
        if j + 1 < i { assert t.nodes[live[j]] == s.nodes[live[j]] && live'[j + 1] == live[j + 1]; }
      } else {
        assert live'[j] == live[j + 1] && t.nodes[live[j + 1]] == s.nodes[live[j + 1]];
      }
    }
  }

  lemma UnlinkFree<K, V>(s: Store<K, V>, live: seq<int>, free: seq<int>, i: nat)
    requires WellFormed(s, live, free) && i < |live|
    ensures var t := Unlinked(s, if i == 0 then -1 else live[i - 1], live[i]);
            Linked(t.nodes, t.free, [live[i]] + free)
  {
    var t := Unlinked(s, if i == 0 then -1 else live[i - 1], live[i]);
    var free' := [live[i]] + free;
    forall j | 0 <= j < |free'| ensures 0 <= free'[j] < |t.nodes| && t.nodes[free'[j]].next == After(free', j) {
      if j > 0 { assert free'[j] == free[j - 1] && t.nodes[free[j - 1]] == s.nodes[free[j - 1]]; }
    }
  }

  lemma UnlinkEntries<K, V>(s: Store<K, V>, t: Store<K, V>, live: seq<int>, i: nat)
    requires i < |live| && |t.nodes| == |s.nodes|
    requires forall j :: 0 <= j < |live| ==> 0 <= live[j] < |s.nodes|
    requires forall x :: 0 <= x < |s.nodes| ==> t.nodes[x] == s.nodes[x].(next := t.nodes[x].next)
    ensures var live' := live[..i] + live[i + 1..];
            && (forall j :: 0 <= j < |live'| ==> 0 <= live'[j] < |t.nodes|)
            && Entries(t.nodes, live') == Entries(s.nodes, live)[..i] + Entries(s.nodes, live)[i + 1..]
  {
    var live' := live[..i] + live[i + 1..];
    assert forall j :: 0 <= j < |live'| ==> live'[j] == live[if j < i then j else j + 1];
  }

  lemma UnlinkKeeps<K, V>(s: Store<K, V>, live: seq<int>, free: seq<int>, i: nat)
    requires WellFormed(s, live, free) && i < |live|
    ensures var t := Unlinked(s, if i == 0 then -1 else live[i - 1], live[i]);
            var live' := live[..i] + live[i + 1..];
            && WellFormed(t, live', [live[i]] + free)
            && Entries(t.nodes, live') == Entries(s.nodes, live)[..i] + Entries(s.nodes, live)[i + 1..]
  {
    UnlinkLive(s, live, free, i);
    UnlinkFree(s, live, free, i);
    UnlinkEntries(s, Unlinked(s, if i == 0 then -1 else live[i - 1], live[i]), live, i);
    MovedPartition(|s.nodes|, live, free, i);
  }

  lemma MovedPartition(n: nat, live: seq<int>, free: seq<int>, i: nat)
    requires Partition(n, live, free) && i < |live|
    ensures Partition(n, live[..i] + live[i + 1..], [live[i]] + free)
  {
    var live', free' := live[..i] + live[i + 1..], [live[i]] + free;
    assert forall j :: 0 <= j < |live'| ==> live'[j] == live[if j < i then j else j + 1];
    assert forall j :: 0 <= j < |free'| ==> free'[j] == if j == 0 then live[i] else free[j - 1];
    forall x | 0 <= x < n ensures x in live' || x in free' {
      if x in live {
        var j :| 0 <= j < |live| && live[j] == x;
        assert if j < i then live'[j] == x else if j == i then free'[0] == x else live'[j - 1] == x;
      } else {
        assert x in free;
      }
    }
  }

  /** A store is full exactly when its free chain is empty. */
  lemma FullIff<K, V>(s: Store<K, V>, live: seq<int>, free: seq<int>)
    requires WellFormed(s, live, free)
    ensures s.free == -1 <==> s.size == |s.nodes|
    ensures s.head == -1 ==> s.free != -1
  {
    if |live| > 0 { assert 0 <= live[0]; }
    if |free| > 0 { assert 0 <= free[0]; }
  }
}

/** `axom_map::Bucket`, updated in place. */
module Buckets {
  import opened Chains
  import opened NodeStore

  /** The node an insertion answers with is a live node that holds the key and the value. */
  ghost predicate Answers<K, V>(nodes: seq<Node<K, V>>, live: seq<int>, ind: int, key: K, value: V) {
    ind in live && 0 <= ind < |nodes| && nodes[ind].key == key && nodes[ind].value == value
  }

  /** `insert_no_update` on chain `c`: the end node exactly when the bucket is full. Otherwise the node holds the key, with
      the new value if it was added and with the value the key had if not. */
  ghost predicate InsertAnswer<K, V>(s: Store<K, V>, live: seq<int>, c: Chain<K, V>, ind: int, added: bool, key: K, value: V) {
    && (ind == -1 <==> |c| == |s.nodes|)
    && (added ==> Answers(s.nodes, live, ind, key, value))
    && (ind != -1 && !added ==> Lookup(c, key).Some? && Answers(s.nodes, live, ind, key, Lookup(c, key).value))
  }

  /** `insert_update` on chain `c`: the end node exactly when a new key finds no room. Otherwise the node holds the key and
      the value, and it was added exactly when the key is new. */
  ghost predicate AssignAnswer<K, V>(s: Store<K, V>, live: seq<int>, c: Chain<K, V>, ind: int, added: bool, key: K, value: V) {
    && (ind == -1 <==> |c| == |s.nodes| && !HasKey(c, key))
    && (ind != -1 ==> Answers(s.nodes, live, ind, key, value))
    && (added <==> ind != -1 && !HasKey(c, key))
  }

  lemma AnswersAt<K, V>(s: Store<K, V>, live: seq<int>, free: seq<int>, pos: nat)
    requires WellFormed(s, live, free) && pos < |live|
    ensures var e := Entries(s.nodes, live)[pos]; Answers(s.nodes, live, live[pos], e.key, e.value)
  {
  }

  class Bucket<K(==, 0), V(0)> {
    const list: array<Node<K, V>>
    var head: int
    var free: int
    const capacity: int
    var size: int
    /** Node indices of the live and of the free chain, in chain order. */
    ghost var live: seq<int>
    ghost var unused: seq<int>

    ghost function View(): Store<K, V>
      reads this, list
    {
      Store(list[..], head, free, size)
    }

    ghost predicate Valid()
      reads this, list
    {
      capacity == list.Length && WellFormed(View(), live, unused)
    }

    ghost function Contents(): Chain<K, V>
      requires Valid()
      reads this, list
    {
      Entries(list[..], live)
    }

    /** `init`: every node starts on the free chain, in index order. */
    constructor (len: int)
      requires len > 0
      ensures Valid() && fresh(list) && capacity == len
      ensures Contents() == []
    {
      var l := new Node<K, V>[len];
      list := l;
      free, head, capacity, size := 0, -1, len, 0;
      live, unused := [], seq(len, i => i);
      new;
      for i := 0 to len - 1
        invariant free == 0 && head == -1 && size == 0
        invariant live == [] && unused == seq(len, i => i)
        invariant forall j :: 0 <= j < i ==> list[j].next == j + 1
      {
        list[i] := list[i].(next := i + 1);
      }
      list[len - 1] := list[len - 1].(next := -1);
      forall x ensures 0 <= x < len ==> x in unused {
        if 0 <= x < len { assert unused[x] == x; }
      }
    }

    /** The walk shared by both insertions: it stops at a node with the key, or at the last node
        without looking at its key. */
    method WalkToLast(key: K) returns (ind: int, hit: bool, ghost pos: nat)
      requires Valid() && head != -1
      ensures pos < |live| && ind == live[pos]
      ensures hit ==> pos + 1 < |live| && FirstWith(Contents(), key) == pos
      ensures !hit ==> pos + 1 == |live| && FirstWith(Contents(), key) >= pos
    {
      ind, pos := head, 0;
      ghost var c := Contents();
      NextOnChain(View(), live, unused, 0);
      while list[ind].next != -1
        invariant 0 <= pos < |live| && ind == live[pos] && 0 <= ind < list.Length
        invariant FirstWith(c, key) >= pos
        decreases |live| - pos
      {
        NextOnChain(View(), live, unused, pos);
        if list[ind].key == key {
          return ind, true, pos;
        }
        ind, pos := list[ind].next, pos + 1;
      }
      NextOnChain(View(), live, unused, pos);
      hit := false;
    }

    /** The assignments that move the first free node behind the node `tail` (-1 for an empty chain). */
    method AppendNode(tail: int, key: K, value: V) returns (ind: int)
      requires Valid() && free != -1 && tail == Tail(live)
      modifies this`head, this`free, this`size, this`live, this`unused, list
      ensures Valid() && live == old(live) + [ind]
      ensures Contents() == old(Contents()) + [Entry(key, value)]
      ensures Answers(list[..], live, ind, key, value)
    {
      AppendKeeps(View(), live, unused, key, value);
      ghost var after := Appended(View(), tail, key, value);
      if tail == -1 {
        head := free;
      } else {
        list[tail] := list[tail].(next := free);
      }
      ind := free;
      free := list[free].next;
      list[ind] := list[ind].(next := -1);
      list[ind] := list[ind].(key := key);
      list[ind] := list[ind].(value := value);
      size := size + 1;
      assert View() == after;
      live, unused := live + [ind], unused[1..];
      AnswersAt(View(), live, unused, |live| - 1);
    }

    method AssignNode(ind: int, value: V, ghost pos: nat)
      requires Valid() && pos < |live| && ind == live[pos]
      modifies list
      ensures Valid()
      ensures Contents() == old(Contents())[pos := Entry(old(Contents())[pos].key, value)]
      ensures Answers(list[..], live, ind, old(Contents())[pos].key, value)
    {
      AssignKeeps(View(), live, unused, pos, value);
      ghost var after := Assigned(View(), ind, value);
      list[ind] := list[ind].(value := value);
      assert View() == after;
      AnswersAt(View(), live, unused, pos);
    }

    /** The assignments that move the node `ind`, reached from `prev`, to the front of the free chain. */
    method UnlinkNode(prev: int, ind: int, ghost pos: nat)
      requires Valid() && pos < |live| && ind == live[pos]
      requires prev == if pos == 0 then -1 else live[pos - 1]
      modifies this`head, this`free, this`size, this`live, this`unused, list
      ensures Valid()
      ensures Contents() == old(Contents())[..pos] + old(Contents())[pos + 1..]
    {
      UnlinkKeeps(View(), live, unused, pos);
      ghost var after := Unlinked(View(), prev, ind);
      if prev != -1 {
        list[prev] := list[prev].(next := list[ind].next);
      }
      if ind == head {
        head := list[ind].next;
      }
      list[ind] := list[ind].(next := free);
      free := ind;
      size := size - 1;
      assert View() == after;
      live, unused := live[..pos] + live[pos + 1..], [ind] + unused;
    }

    /** Answers the node reached (-1 stands for the end node) and whether a node was added. */
    method InsertNoUpdate(key: K, value: V) returns (ind: int, added: bool)
      requires Valid()
      modifies this`head, this`free, this`size, this`live, this`unused, list
      ensures Valid()
      ensures var (c, o) := Chains.InsertNoUpdate(old(Contents()), capacity, key, value);
              && Contents() == c
              && added == o.Inserted?
              && (if o.Full? then ind == -1 else ind == live[o.at])
      ensures InsertAnswer(View(), live, old(Contents()), ind, added, key, value)
    {
      FullIff(View(), live, unused);
      if free != -1 {
        if head == -1 {
          ind := AppendNode(-1, key, value);
        } else {
          var hit; ghost var pos;
          ind, hit, pos := WalkToLast(key);
          if hit {
            AnswersAt(View(), live, unused, pos);
            return ind, false;
          }
          ind := AppendNode(ind, key, value);
        }
        return ind, true;
      }
      return -1, false;
    }

    method InsertUpdate(key: K, value: V) returns (ind: int, added: bool)
      requires Valid()
      modifies this`head, this`free, this`size, this`live, this`unused, list
      ensures Valid()
      ensures var (c, o) := Chains.InsertUpdate(old(Contents()), capacity, key, value);
              && Contents() == c
              && added == o.Inserted?
              && (if o.Full? then ind == -1 else ind == live[o.at])
      ensures AssignAnswer(View(), live, old(Contents()), ind, added, key, value)
    {
      FullIff(View(), live, unused);
      ghost var c := Contents();
      if head == -1 {
        ind := AppendNode(-1, key, value);
        return ind, true;
      }
      var hit; ghost var pos;
      ind, hit, pos := WalkToLast(key);
      NextOnChain(View(), live, unused, pos);
      assert list[ind].key == c[pos].key;
      assert FirstWith(c, key) == if hit || c[pos].key == key then pos else |c|;
      if hit || list[ind].key == key {
        AssignNode(ind, value, pos);
        return ind, false;
      } else if free != -1 {
        ind := AppendNode(ind, key, value);
        return ind, true;
      }
      return -1, false;
    }

    /** The walk shared by `remove` and `find`: the first node with the key and its predecessor, both -1
        when there is none. */
    method Locate(key: K) returns (ind: int, prev: int, ghost pos: nat)
      requires Valid()
      ensures pos == FirstWith(Contents(), key)
      ensures pos < |live| ==> ind == live[pos] && prev == if pos == 0 then -1 else live[pos - 1]
      ensures pos == |live| <==> ind == -1
    {
      ghost var c := Contents();
      ind, prev, pos := head, -1, 0;
      while ind != -1
        invariant 0 <= pos <= |live| && ind == if pos < |live| then live[pos] else -1
        invariant prev == if pos == 0 then -1 else live[pos - 1]
        invariant FirstWith(c, key) >= pos
        decreases |live| - pos
      {
        NextOnChain(View(), live, unused, pos);
        if list[ind].key == key {
          return;
        }
        prev, ind, pos := ind, list[ind].next, pos + 1;
      }
    }

    method Remove(key: K) returns (found: bool)
      requires Valid()
      modifies this`head, this`free, this`size, this`live, this`unused, list
      ensures Valid()
      ensures Contents() == Chains.Remove(old(Contents()), key).0
      ensures found == Chains.Remove(old(Contents()), key).1
    {
      var ind, prev; ghost var pos;
      ind, prev, pos := Locate(key);
      if ind == -1 {
        return false;
      }
      UnlinkNode(prev, ind, pos);
      return true;
    }

    /** The index of the first node with the key, or -1 for the end node. */
    method Find(key: K) returns (ind: int)
      requires Valid()
      ensures var i := FirstWith(Contents(), key);
              ind == if i < |live| then live[i] else -1
    {
      var prev; ghost var pos;
      ind, prev, pos := Locate(key);
    }
  }
}
