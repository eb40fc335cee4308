/** The chained hash table of hashmap.c, proved against a plain map. */
module HashMaps {
  import opened Wrappers
  import opened Seqs
  import Fnv

  const DEFAULT_SIZE: nat := 16
  const RESIZE_SCALE_FACTOR: nat := 2

  // The largest load 0.70f is the single-precision number LOAD / LOAD_UNIT.
  const LOAD: nat := 11744051
  const LOAD_UNIT: nat := 0x100_0000
  const MAX_CAPACITY: nat := 0x400_0000

  class Bucket<V> {
    const hash: Fnv.UInt32
    const key: string
    var val: V
    var next: Bucket?<V>

    constructor (key: string, val: V)
      ensures this.key == key && this.val == val && next == null && hash == Fnv.Hash(key)
    {
      var h := Fnv.Fnv1aHash(key);
      this.key, this.val, this.hash := key, val, h;
      next := null;
    }
  }

  // ----- slots -----

  /** The remainder of `hash` by `capacity`, by repeated subtraction. */
  ghost function Slot(hash: nat, capacity: nat): (slot: nat)
    requires capacity > 0
    ensures slot < capacity
  {
    if hash < capacity then hash else Slot(hash - capacity, capacity)
  }

  lemma {:induction false} SlotIsRemainder(hash: nat, capacity: nat)
    requires capacity > 0
    ensures hash % capacity == Slot(hash, capacity)
  {
    if hash >= capacity {
      SlotIsRemainder(hash - capacity, capacity);
      var q, r := (hash - capacity) / capacity, (hash - capacity) % capacity;
      assert hash == (q + 1) * capacity + r;
      RemainderUnique(hash, capacity, q + 1, r);
    }
  }

  lemma RemainderUnique(x: nat, m: nat, q: nat, r: nat)
    requires m > 0 && r < m && x == q * m + r
    ensures x % m == r
  {
    var d := x / m - q;
    assert d * m == r - x % m;
    if d >= 1 {
      MultipleAtLeast(d, m);
    } else if d <= -1 {
      MultipleAtLeast(-d, m);
    }
  }

  lemma MultipleAtLeast(d: nat, m: nat)
    requires d >= 1
    ensures d * m >= m
  {
  }

  /** Doubling the capacity splits each slot in two. */
  lemma {:induction false} SlotOfDoubled(hash: nat, capacity: nat)
    requires capacity > 0
    ensures Slot(Slot(hash, 2 * capacity), capacity) == Slot(hash, capacity)
  {
    if hash >= 2 * capacity {
      SlotOfDoubled(hash - 2 * capacity, capacity);
      assert Slot(hash, capacity) == Slot(hash - capacity, capacity) == Slot(hash - 2 * capacity, capacity);
    }
  }

  // ----- chains -----

  /** `head` starts a null-terminated list that runs through exactly the buckets of `c`. */
  ghost predicate Linked<V>(head: Bucket?<V>, c: seq<Bucket<V>>)
    reads c`next
  {
    && head == (if c == [] then null else c[0])
    && forall j {:trigger c[j].next} :: 0 <= j < |c| ==> c[j].next == (if j + 1 < |c| then c[j + 1] else null)
  }

  /** Every bucket sits in the chain its stored hash selects, and no chain holds a key twice. */
  ghost predicate Placed<V>(chains: seq<seq<Bucket<V>>>) {
    && (forall i, j {:trigger chains[i][j]} :: 0 <= i < |chains| && 0 <= j < |chains[i]| ==>
          chains[i][j].hash == Fnv.Hash(chains[i][j].key) && Slot(chains[i][j].hash, |chains|) == i)
    && (forall i, j, k {:trigger chains[i][j], chains[i][k]} ::
          0 <= i < |chains| && 0 <= j < k < |chains[i]| ==> chains[i][j].key != chains[i][k].key)
  }

  ghost function BucketsOf<V>(chains: seq<seq<Bucket<V>>>): set<Bucket<V>> {
    set i, j | 0 <= i < |chains| && 0 <= j < |chains[i]| :: chains[i][j]
  }

  /** The buckets of a chain that belong to slot `slot` of a table with `capacity` slots, in their old order. */
  ghost function Rehashed<V>(c: seq<Bucket<V>>, capacity: nat, slot: nat): (r: seq<Bucket<V>>)
    requires capacity > 0
  {
    if c == [] then []
    else Rehashed(c[..|c| - 1], capacity, slot)
         + (if Slot(c[|c| - 1].hash, capacity) == slot then [c[|c| - 1]] else [])
  }

  /** Every element of `r` is in `c` and belongs to slot `slot`. */
  ghost predicate TakenFrom<V>(r: seq<Bucket<V>>, c: seq<Bucket<V>>, capacity: nat, slot: nat)
    requires capacity > 0
  {
    forall j :: 0 <= j < |r| ==> r[j] in c && Slot(r[j].hash, capacity) == slot
  }

  lemma {:induction false} RehashedMembers<V>(c: seq<Bucket<V>>, capacity: nat, slot: nat)
    requires capacity > 0
    ensures TakenFrom(Rehashed(c, capacity, slot), c, capacity, slot)
    ensures forall j :: 0 <= j < |c| && Slot(c[j].hash, capacity) == slot ==> c[j] in Rehashed(c, capacity, slot)
  {
    if c != [] {
      var init, last := c[..|c| - 1], c[|c| - 1];
      var kept := Rehashed(init, capacity, slot);
      RehashedMembers(init, capacity, slot);
      forall j | 0 <= j < |c| && Slot(c[j].hash, capacity) == slot
        ensures c[j] in Rehashed(c, capacity, slot)
      {
        assert j < |init| ==> init[j] in kept;
      }
    }
  }

  lemma {:induction false} RehashedDistinct<V>(c: seq<Bucket<V>>, capacity: nat, slot: nat)
    requires capacity > 0 && Distinct(c)
    ensures Distinct(Rehashed(c, capacity, slot))
  {
    if c != [] {
      var init := c[..|c| - 1];
      RehashedDistinct(init, capacity, slot);
      RehashedMembers(init, capacity, slot);
      assert c[|c| - 1] !in init;
    }
  }

  lemma RehashedSnoc<V>(c: seq<Bucket<V>>, t: nat, capacity: nat, slot: nat)
    requires capacity > 0 && t < |c|
    ensures Rehashed(c[..t + 1], capacity, slot)
         == Rehashed(c[..t], capacity, slot) + (if Slot(c[t].hash, capacity) == slot then [c[t]] else [])
  {
    assert c[..t + 1][..t] == c[..t];
  }

  /** No bucket sits in two places of a table. */
  lemma PlacedApart<V>(chains: seq<seq<Bucket<V>>>, i: nat, k: nat)
    requires Placed(chains) && i < |chains| && k < |chains|
    ensures Distinct(chains[i])
    ensures i != k ==> forall m, n :: 0 <= m < |chains[i]| && 0 <= n < |chains[k]| ==> chains[i][m] != chains[k][n]
  {
  }

  ghost function Tail<V>(chain: seq<Bucket<V>>): set<Bucket<V>> {
    if chain == [] then {} else {chain[|chain| - 1]}
  }

  /** Appending `b` to `chain` touches no bucket of `other`. */
  ghost predicate Avoids<V>(chain: seq<Bucket<V>>, b: Bucket<V>, other: seq<Bucket<V>>) {
    b !in other && (chain != [] ==> chain[|chain| - 1] !in other)
  }

  /** Appends at the tail of a chain: hashmap_resize and hashmap_insert walk to the last bucket in the same way. */
  method AppendBucket<V>(table: array<Bucket?<V>>, idx: nat, ghost chain: seq<Bucket<V>>, b: Bucket<V>)
    requires idx < table.Length
    requires Linked(table[idx], chain) && Distinct(chain) && b !in chain
    modifies table, b`next, Tail(chain)`next
    ensures Linked(table[idx], chain + [b])
    ensures forall k :: 0 <= k < table.Length && k != idx ==> table[k] == old(table[k])
  {
    if table[idx] == null {
      table[idx] := b;
      b.next := null;
    } else {
      var ptr := table[idx];
      ghost var t := 0;
      while ptr.next != null
        invariant 0 <= t < |chain| && ptr == chain[t]
        decreases |chain| - t
      {
        ptr := ptr.next;
        t := t + 1;
      }
      ptr.next := b;
      b.next := null;
      assert forall j :: 0 <= j < t ==> chain[j] != ptr;
    }
  }

  // ----- resizing -----

  /** Slot `j` of the new table once the chains before `i` and the first `t` buckets of chain `i` have moved. */
  ghost function Moved<V>(chains: seq<seq<Bucket<V>>>, i: nat, t: nat, j: nat): seq<Bucket<V>>
    requires |chains| > 0 && (i < |chains| ==> t <= |chains[i]|)
  {
    var slot := Slot(j, |chains|);
    if slot < i then Rehashed(chains[slot], 2 * |chains|, j)
    else if slot == i then Rehashed(chains[i][..t], 2 * |chains|, j)
    else []
  }

  lemma MovedMembers<V>(chains: seq<seq<Bucket<V>>>, i: nat, t: nat, j: nat)
    requires Placed(chains) && i < |chains| && t <= |chains[i]|
    ensures Distinct(Moved(chains, i, t, j))
    ensures TakenFrom(Moved(chains, i, t, j), chains[Slot(j, |chains|)], 2 * |chains|, j)
    ensures Moved(chains, i, t, j) != [] ==> Slot(j, |chains|) <= i
    ensures forall k, m :: 0 <= k < |Moved(chains, i, t, j)| && t <= m < |chains[i]| ==>
              Moved(chains, i, t, j)[k] != chains[i][m]
  {
    var slot := Slot(j, |chains|);
    PlacedApart(chains, slot, i);
    if slot < i {
      RehashedMembers(chains[slot], 2 * |chains|, j);
      RehashedDistinct(chains[slot], 2 * |chains|, j);
    } else if slot == i {
      RehashedMembers(chains[i][..t], 2 * |chains|, j);
      RehashedDistinct(chains[i][..t], 2 * |chains|, j);
    }
  }

  lemma MovedStep<V>(chains: seq<seq<Bucket<V>>>, i: nat, t: nat, j: nat)
    requires Placed(chains) && i < |chains| && t < |chains[i]|
    requires j < 2 * |chains|
    ensures Moved(chains, i, t + 1, j)
         == Moved(chains, i, t, j) + (if Slot(chains[i][t].hash, 2 * |chains|) == j then [chains[i][t]] else [])
  {
    var h := chains[i][t].hash;
    SlotOfDoubled(h, |chains|);
    if Slot(j, |chains|) == i {
      RehashedSnoc(chains[i], t, 2 * |chains|, j);
    }
  }

  lemma LinkedRest<V>(head: Bucket<V>, c: seq<Bucket<V>>, t: nat)
    requires t <= |c| && Linked(head, c[t..])
    ensures t < |c| && head == c[t] && Linked(head.next, c[t + 1..])
  {
    var rest := c[t + 1..];
    assert head.next == if rest == [] then null else rest[0];
    forall j | 0 <= j < |rest|
      ensures rest[j].next == if j + 1 < |rest| then rest[j + 1] else null
    {
      assert rest[j] == c[t..][j + 1];
    }
  }

  /** The loop over one old chain in hashmap_resize: every bucket of chain `i` is unhooked and
      appended to its slot of the new table; no bucket is copied. */
  method RelinkChain<V>(head: Bucket?<V>, table: array<Bucket?<V>>, i: nat,
                        ghost chains: seq<seq<Bucket<V>>>)
    requires Placed(chains) && i < |chains| && table.Length == 2 * |chains|
    requires Linked(head, chains[i])
    requires forall j :: 0 <= j < table.Length ==> Linked(table[j], Moved(chains, i, 0, j))
    modifies table, BucketsOf(chains[..i + 1])`next
    ensures forall j :: 0 <= j < table.Length ==> Linked(table[j], Moved(chains, i, |chains[i]|, j))
  {
    var target := head;
    ghost var t := 0;
    ghost var c := chains[i];
    while target != null
      invariant 0 <= t <= |c| && Linked(target, c[t..])
      invariant forall j :: 0 <= j < table.Length ==> Linked(table[j], Moved(chains, i, t, j))
      decreases |c| - t
    {
      var curr := target;
      target := target.next;
      LinkedRest(curr, c, t);
      RelinkBucket(curr, target, table, i, t, chains);
      t := t + 1;
    }
  }

  /** The bucket about to move, its new neighbour, and everything they must not be mixed up with. */
  lemma MovedTail<V>(chains: seq<seq<Bucket<V>>>, i: nat, t: nat)
    requires Placed(chains) && i < |chains| && t < |chains[i]|
    ensures var idx := Slot(chains[i][t].hash, 2 * |chains|);
            && Moved(chains, i, t + 1, idx) == Moved(chains, i, t, idx) + [chains[i][t]]
            && Distinct(Moved(chains, i, t, idx))
            && chains[i][t] !in Moved(chains, i, t, idx)
            && chains[i][t] in BucketsOf(chains[..i + 1])
            && Tail(Moved(chains, i, t, idx)) <= BucketsOf(chains[..i + 1])
            && Avoids(Moved(chains, i, t, idx), chains[i][t], chains[i][t + 1..])
  {
    var idx := Slot(chains[i][t].hash, 2 * |chains|);
    var chain := Moved(chains, i, t, idx);
    MovedMembers(chains, i, t, idx);
    MovedStep(chains, i, t, idx);
    PlacedApart(chains, i, i);
    assert chains[i][t] == chains[..i + 1][i][t];
    if chain != [] {
      var slot := Slot(idx, |chains|);
      var m :| 0 <= m < |chains[slot]| && chains[slot][m] == chain[|chain| - 1];
      assert chains[..i + 1][slot][m] == chain[|chain| - 1];
    }
  }

  lemma MovedOther<V>(chains: seq<seq<Bucket<V>>>, i: nat, t: nat, j: nat)
    requires Placed(chains) && i < |chains| && t < |chains[i]|
    requires j < 2 * |chains| && j != Slot(chains[i][t].hash, 2 * |chains|)
    ensures Moved(chains, i, t + 1, j) == Moved(chains, i, t, j)
    ensures Avoids(Moved(chains, i, t, Slot(chains[i][t].hash, 2 * |chains|)), chains[i][t], Moved(chains, i, t, j))
  {
    MovedStep(chains, i, t, j);
    MovedMembers(chains, i, t, j);
    MovedMembers(chains, i, t, Slot(chains[i][t].hash, 2 * |chains|));
  }

  method RelinkBucket<V>(curr: Bucket<V>, target: Bucket?<V>, table: array<Bucket?<V>>,
                         ghost i: nat, ghost t: nat, ghost chains: seq<seq<Bucket<V>>>)
    requires Placed(chains) && i < |chains| && table.Length == 2 * |chains|
    requires t < |chains[i]| && curr == chains[i][t] && Linked(target, chains[i][t + 1..])
    requires forall j :: 0 <= j < table.Length ==> Linked(table[j], Moved(chains, i, t, j))
    modifies table, BucketsOf(chains[..i + 1])`next
    ensures Linked(target, chains[i][t + 1..])
    ensures forall j :: 0 <= j < table.Length ==> Linked(table[j], Moved(chains, i, t + 1, j))
  {
    var idx := curr.hash % table.Length;
    SlotIsRemainder(curr.hash, table.Length);
    MovedTail(chains, i, t);
    AppendBucket(table, idx, Moved(chains, i, t, idx), curr);
    assert old(Linked(target, chains[i][t + 1..]));
    forall j | 0 <= j < table.Length && j != idx
      ensures Linked(table[j], Moved(chains, i, t + 1, j))
    {
      MovedOther(chains, i, t, j);
      assert old(Linked(table[j], Moved(chains, i, t, j)));
    }
  }

  lemma LaterChainsUntouched<V>(chains: seq<seq<Bucket<V>>>, i: nat, k: nat)
    requires Placed(chains) && i < k < |chains|
    ensures forall m :: 0 <= m < |chains[k]| ==> chains[k][m] !in BucketsOf(chains[..i + 1])
  {
  }

  /** The outer loop of hashmap_resize. */
  method RelinkTable<V>(buckets: array<Bucket?<V>>, table: array<Bucket?<V>>, ghost chains: seq<seq<Bucket<V>>>)
    requires Placed(chains) && |chains| == buckets.Length > 0 && table.Length == 2 * |chains| && table != buckets
    requires forall i :: 0 <= i < |chains| ==> Linked(buckets[i], chains[i])
    requires forall j :: 0 <= j < table.Length ==> table[j] == null
    modifies table, BucketsOf(chains)`next
    ensures forall j :: 0 <= j < table.Length ==>
              Linked(table[j], Rehashed(chains[Slot(j, |chains|)], table.Length, j))
  {
    var i := 0;
    while i < buckets.Length
      invariant 0 <= i <= buckets.Length
      invariant forall j :: 0 <= j < table.Length ==> Linked(table[j], Moved(chains, i, 0, j))
      invariant forall k :: i <= k < |chains| ==> Linked(buckets[k], chains[k])
    {
      PrefixBuckets(chains, i + 1);
      RelinkChain(buckets[i], table, i, chains);
      forall j | 0 <= j < table.Length
        ensures Linked(table[j], Moved(chains, i + 1, 0, j))
      {
        MovedNextChain(chains, i, j);
      }
      forall k | i < k < |chains|
        ensures Linked(buckets[k], chains[k])
      {
        LaterChainsUntouched(chains, i, k);
        assert old(Linked(buckets[k], chains[k]));
      }
      i := i + 1;
    }
  }

  lemma PrefixBuckets<V>(chains: seq<seq<Bucket<V>>>, n: nat)
    requires n <= |chains|
    ensures BucketsOf(chains[..n]) <= BucketsOf(chains)
  {
    forall b | b in BucketsOf(chains[..n])
      ensures b in BucketsOf(chains)
    {
      var i, m :| 0 <= i < n && 0 <= m < |chains[..n][i]| && chains[..n][i][m] == b;
      assert chains[i][m] == b;
    }
  }

  lemma MovedNextChain<V>(chains: seq<seq<Bucket<V>>>, i: nat, j: nat)
    requires i < |chains|
    ensures Moved(chains, i, |chains[i]|, j) == Moved(chains, i + 1, 0, j)
  {
    assert chains[i][..|chains[i]|] == chains[i];
    if Slot(j, |chains|) == i + 1 {
      assert chains[i + 1][..0] == [];
    }
  }

  // ----- the doubled table -----

  /** The table after hashmap_resize: slot `j` is its old chain cut down to the buckets that now belong there. */
  ghost predicate IsDoubled<V>(chains: seq<seq<Bucket<V>>>, doubled: seq<seq<Bucket<V>>>) {
    && |chains| > 0 && |doubled| == 2 * |chains|
    && forall j :: 0 <= j < |doubled| ==> doubled[j] == Rehashed(chains[Slot(j, |chains|)], |doubled|, j)
  }

  ghost function Doubled<V>(chains: seq<seq<Bucket<V>>>): (doubled: seq<seq<Bucket<V>>>)
    requires |chains| > 0
    ensures IsDoubled(chains, doubled)
  {
    seq(2 * |chains|, j requires 0 <= j => Rehashed(chains[Slot(j, |chains|)], 2 * |chains|, j))
  }

  lemma {:induction false} RehashedKeysDistinct<V>(c: seq<Bucket<V>>, capacity: nat, slot: nat)
    requires capacity > 0
    requires forall j, k :: 0 <= j < k < |c| ==> c[j].key != c[k].key
    ensures forall j, k :: 0 <= j < k < |Rehashed(c, capacity, slot)| ==>
              Rehashed(c, capacity, slot)[j].key != Rehashed(c, capacity, slot)[k].key
  {
    if c != [] {
      var init := c[..|c| - 1];
      RehashedKeysDistinct(init, capacity, slot);
      RehashedMembers(init, capacity, slot);
    }
  }

  lemma PlacedResize<V>(chains: seq<seq<Bucket<V>>>, doubled: seq<seq<Bucket<V>>>)
    requires Placed(chains) && IsDoubled(chains, doubled)
    ensures Placed(doubled)
  {
    forall j | 0 <= j < |doubled|
      ensures forall k :: 0 <= k < |doubled[j]| ==>
                doubled[j][k].hash == Fnv.Hash(doubled[j][k].key) && Slot(doubled[j][k].hash, |doubled|) == j
      ensures forall k, m :: 0 <= k < m < |doubled[j]| ==> doubled[j][k].key != doubled[j][m].key
    {
      var c := chains[Slot(j, |chains|)];
      RehashedMembers(c, |doubled|, j);
      RehashedKeysDistinct(c, |doubled|, j);
    }
  }

  /** No bucket is lost by doubling. */
  lemma ResizeKeeps<V>(chains: seq<seq<Bucket<V>>>, doubled: seq<seq<Bucket<V>>>, i: nat, m: nat)
    requires Placed(chains) && IsDoubled(chains, doubled)
    requires i < |chains| && m < |chains[i]|
    ensures chains[i][m] in doubled[Slot(chains[i][m].hash, |doubled|)]
  {
    var b := chains[i][m];
    SlotOfDoubled(b.hash, |chains|);
    RehashedMembers(chains[i], |doubled|, Slot(b.hash, |doubled|));
  }

  /** No bucket is made up by doubling. */
  lemma ResizeTakes<V>(chains: seq<seq<Bucket<V>>>, doubled: seq<seq<Bucket<V>>>, j: nat, m: nat)
    requires IsDoubled(chains, doubled)
    requires j < |doubled| && m < |doubled[j]|
    ensures doubled[j][m] in chains[Slot(j, |chains|)]
  {
    RehashedMembers(chains[Slot(j, |chains|)], |doubled|, j);
  }

  lemma BucketsOfResize<V>(chains: seq<seq<Bucket<V>>>, doubled: seq<seq<Bucket<V>>>)
    requires Placed(chains) && IsDoubled(chains, doubled)
    ensures BucketsOf(doubled) == BucketsOf(chains)
  {
    forall b | b in BucketsOf(chains)
      ensures b in BucketsOf(doubled)
    {
      var i, m :| 0 <= i < |chains| && 0 <= m < |chains[i]| && chains[i][m] == b;
      ResizeKeeps(chains, doubled, i, m);
      var j := Slot(b.hash, |doubled|);
      var n :| 0 <= n < |doubled[j]| && doubled[j][n] == b;
    }
    forall b | b in BucketsOf(doubled)
      ensures b in BucketsOf(chains)
    {
      var j, m :| 0 <= j < |doubled| && 0 <= m < |doubled[j]| && doubled[j][m] == b;
      ResizeTakes(chains, doubled, j, m);
      var i := Slot(j, |chains|);
      var n :| 0 <= n < |chains[i]| && chains[i][n] == b;
    }
  }

  // ----- the map -----

  /** The buckets of `chains` hold exactly the associations of `contents`. */
  ghost predicate Holds<V>(chains: seq<seq<Bucket<V>>>, contents: map<string, V>)
    requires |chains| > 0
    reads BucketsOf(chains)`val
  {
    && (forall i, j {:trigger chains[i][j]} :: 0 <= i < |chains| && 0 <= j < |chains[i]| ==>
          chains[i][j].key in contents && contents[chains[i][j].key] == chains[i][j].val)
    && (forall k :: k in contents ==> HasKey(chains[Slot(Fnv.Hash(k), |chains|)], k))
  }

  ghost predicate HasKey<V>(c: seq<Bucket<V>>, key: string) {
    exists j :: 0 <= j < |c| && c[j].key == key
  }

  lemma HoldsResize<V>(chains: seq<seq<Bucket<V>>>, doubled: seq<seq<Bucket<V>>>, contents: map<string, V>)
    requires Placed(chains) && IsDoubled(chains, doubled) && Holds(chains, contents)
    ensures Holds(doubled, contents)
  {
    forall j, m | 0 <= j < |doubled| && 0 <= m < |doubled[j]|
      ensures doubled[j][m].key in contents && contents[doubled[j][m].key] == doubled[j][m].val
    {
      ResizeTakes(chains, doubled, j, m);
      var i := Slot(j, |chains|);
      var n :| 0 <= n < |chains[i]| && chains[i][n] == doubled[j][m];
    }
    forall k | k in contents
      ensures HasKey(doubled[Slot(Fnv.Hash(k), |doubled|)], k)
    {
      var i := Slot(Fnv.Hash(k), |chains|);
      var m :| 0 <= m < |chains[i]| && chains[i][m].key == k;
      ResizeKeeps(chains, doubled, i, m);
      var j := Slot(Fnv.Hash(k), |doubled|);
      var n :| 0 <= n < |doubled[j]| && doubled[j][n] == chains[i][m];
      assert doubled[j][n].key == k;
    }
  }

  /** `buckets` is a table whose slots are the lists `chains` and whose associations are `contents`. */
  ghost predicate Sound<V>(buckets: array<Bucket?<V>>, chains: seq<seq<Bucket<V>>>, contents: map<string, V>)
    reads buckets, BucketsOf(chains)
  {
    && |chains| == buckets.Length > 0
    && (forall i :: 0 <= i < |chains| ==> Linked(buckets[i], chains[i]))
    && Placed(chains)
    && Holds(chains, contents)
  }

  /** hashmap_resize: the new table reuses the old buckets. */
  method Rehash<V>(buckets: array<Bucket?<V>>, ghost chains: seq<seq<Bucket<V>>>, ghost contents: map<string, V>)
    returns (table: array<Bucket?<V>>)
    requires Sound(buckets, chains, contents)
    modifies BucketsOf(chains)`next
    ensures fresh(table) && table.Length == buckets.Length * RESIZE_SCALE_FACTOR
    ensures BucketsOf(Doubled(chains)) == BucketsOf(chains)
    ensures Sound(table, Doubled(chains), contents)
  {
    hide Placed, Holds, Linked;
    table := new Bucket?<V>[buckets.Length * RESIZE_SCALE_FACTOR](_ => null);
    PlacedResize(chains, Doubled(chains));
    BucketsOfResize(chains, Doubled(chains));
    HoldsResize(chains, Doubled(chains), contents);
    RelinkTable(buckets, table, chains);
  }

  /** The walk along one chain in hashmap_get and hashmap_insert. */
  method Seek<V>(head: Bucket?<V>, ghost c: seq<Bucket<V>>, hash: Fnv.UInt32, key: string)
    returns (found: Bucket?<V>)
    requires Linked(head, c)
    requires hash == Fnv.Hash(key) && forall j :: 0 <= j < |c| ==> c[j].hash == Fnv.Hash(c[j].key)
    ensures found != null ==> found in c && found.key == key
    ensures found == null ==> !HasKey(c, key)
  {
    found := head;
    ghost var t := 0;
    while found != null
      invariant 0 <= t <= |c| && found == (if t < |c| then c[t] else null)
      invariant forall j :: 0 <= j < t ==> c[j].key != key
      decreases |c| - t
    {
      if found.hash == hash && found.key == key {
        return;
      }
      found := found.next;
      t := t + 1;
    }
  }

  // ----- adding and unhooking one bucket -----

  lemma PlacedAdd<V>(chains: seq<seq<Bucket<V>>>, idx: nat, b: Bucket<V>)
    requires Placed(chains) && idx < |chains|
    requires b.hash == Fnv.Hash(b.key) && Slot(b.hash, |chains|) == idx
    requires !HasKey(chains[idx], b.key)
    ensures Placed(chains[idx := chains[idx] + [b]])
  {
  }

  lemma BucketsOfAdd<V>(chains: seq<seq<Bucket<V>>>, idx: nat, b: Bucket<V>)
    requires idx < |chains|
    ensures BucketsOf(chains[idx := chains[idx] + [b]]) == BucketsOf(chains) + {b}
  {
    var added := chains[idx := chains[idx] + [b]];
    assert added[idx][|chains[idx]|] == b;
    forall x | x in BucketsOf(chains)
      ensures x in BucketsOf(added)
    {
      var i, j :| 0 <= i < |chains| && 0 <= j < |chains[i]| && chains[i][j] == x;
      assert added[i][j] == x;
    }
  }

  lemma HoldsAdd<V>(chains: seq<seq<Bucket<V>>>, contents: map<string, V>, idx: nat, b: Bucket<V>)
    requires idx < |chains| && Placed(chains) && Holds(chains, contents)
    requires Slot(Fnv.Hash(b.key), |chains|) == idx && b.key !in contents
    ensures Holds(chains[idx := chains[idx] + [b]], contents[b.key := b.val])
  {
    var added: seq<seq<Bucket<V>>> := chains[idx := chains[idx] + [b]];
    forall i, j | 0 <= i < |added| && 0 <= j < |added[i]|
      ensures added[i][j].key in contents[b.key := b.val]
      ensures contents[b.key := b.val][added[i][j].key] == added[i][j].val
    {
      assert added[i][j] == if j < |chains[i]| then chains[i][j] else b;
    }
    forall k | k in contents[b.key := b.val]
      ensures HasKey(added[Slot(Fnv.Hash(k), |added|)], k)
    {
      var i := Slot(Fnv.Hash(k), |chains|);
      if k == b.key {
        assert added[i][|chains[i]|].key == k;
      } else {
        var j :| 0 <= j < |chains[i]| && chains[i][j].key == k;
        assert added[i][j].key == k;
      }
    }
  }

  lemma AddFacts<V>(chains: seq<seq<Bucket<V>>>, contents: map<string, V>, idx: nat, b: Bucket<V>)
    requires idx < |chains| && Placed(chains) && Holds(chains, contents) && b !in BucketsOf(chains)
    requires b.hash == Fnv.Hash(b.key) && Slot(b.hash, |chains|) == idx && b.key !in contents
    ensures Placed(chains[idx := chains[idx] + [b]])
    ensures Holds(chains[idx := chains[idx] + [b]], contents[b.key := b.val])
    ensures BucketsOf(chains[idx := chains[idx] + [b]]) == BucketsOf(chains) + {b}
    ensures Distinct(chains[idx]) && b !in chains[idx] && Tail(chains[idx]) <= BucketsOf(chains)
  {
    PlacedAdd(chains, idx, b);
    HoldsAdd(chains, contents, idx, b);
    BucketsOfAdd(chains, idx, b);
    PlacedApart(chains, idx, idx);
  }

  lemma AddAvoids<V>(chains: seq<seq<Bucket<V>>>, idx: nat, b: Bucket<V>, k: nat)
    requires idx < |chains| && k < |chains| && k != idx && Placed(chains) && b !in BucketsOf(chains)
    ensures Avoids(chains[idx], b, chains[k])
  {
    PlacedApart(chains, idx, k);
  }

  /** hashmap_insert for a key that is not there yet. */
  method AddBucket<V>(buckets: array<Bucket?<V>>, idx: nat, b: Bucket<V>,
                      ghost chains: seq<seq<Bucket<V>>>, ghost contents: map<string, V>)
    requires Sound(buckets, chains, contents) && b !in BucketsOf(chains)
    requires b.hash == Fnv.Hash(b.key) && b.key !in contents && idx == Slot(b.hash, buckets.Length)
    modifies buckets, b`next, BucketsOf(chains)`next
    ensures BucketsOf(chains[idx := chains[idx] + [b]]) == BucketsOf(chains) + {b}
    ensures Sound(buckets, chains[idx := chains[idx] + [b]], contents[b.key := b.val])
  {
    hide Placed, Holds;
    AddFacts(chains, contents, idx, b);
    ghost var added := chains[idx := chains[idx] + [b]];
    ghost var grown := contents[b.key := b.val];
    AppendBucket(buckets, idx, chains[idx], b);
    assert old(Holds(added, grown)) && Linked(buckets[idx], added[idx]);
    forall k | 0 <= k < |chains| && k != idx
      ensures Linked(buckets[k], chains[k])
    {
      AddAvoids(chains, idx, b, k);
      assert old(Linked(buckets[k], chains[k]));
    }
  }

  /** A key is stored exactly when the chain its hash selects has a bucket for it. */
  lemma HoldsKey<V>(chains: seq<seq<Bucket<V>>>, contents: map<string, V>, key: string)
    requires |chains| > 0 && Placed(chains) && Holds(chains, contents)
    ensures HasKey(chains[Slot(Fnv.Hash(key), |chains|)], key) <==> key in contents
  {
  }

  /** Takes the bucket at position `t` out of chain `idx`; `prev` is the one before it. */
  method UnhookAt<V>(buckets: array<Bucket?<V>>, idx: nat, ghost c: seq<Bucket<V>>, ghost t: nat,
                     prev: Bucket?<V>, target: Bucket<V>)
    requires idx < buckets.Length && Linked(buckets[idx], c) && Distinct(c)
    requires t < |c| && target == c[t] && prev == (if t == 0 then null else c[t - 1])
    modifies buckets, (set x | x in c)`next
    ensures forall k :: 0 <= k < buckets.Length && k != idx ==> buckets[k] == old(buckets[k])
    ensures Linked(buckets[idx], c[..t] + c[t + 1..])
  {
    if prev == null {
      buckets[idx] := target.next;
    } else {
      prev.next := target.next;
    }
    target.next := null;
  }

  /** The loop of _hashmap_remove over chain `idx`; `prev` trails one bucket behind `target`. */
  method Unhook<V>(buckets: array<Bucket?<V>>, idx: nat, ghost c: seq<Bucket<V>>, hash: Fnv.UInt32, key: string)
    returns (removed: bool, ghost t: nat)
    requires idx < buckets.Length && Linked(buckets[idx], c) && Distinct(c)
    requires hash == Fnv.Hash(key) && forall j :: 0 <= j < |c| ==> c[j].hash == Fnv.Hash(c[j].key)
    modifies buckets, (set x | x in c)`next
    ensures forall k :: 0 <= k < buckets.Length && k != idx ==> buckets[k] == old(buckets[k])
    ensures !removed ==> !HasKey(c, key) && buckets[idx] == old(buckets[idx]) && Linked(buckets[idx], c)
    ensures removed ==> t < |c| && c[t].key == key && Linked(buckets[idx], c[..t] + c[t + 1..])
  {
    var target := buckets[idx];
    var prev: Bucket?<V> := null;
    t := 0;
    while target != null
      invariant 0 <= t <= |c| && target == (if t < |c| then c[t] else null)
      invariant prev == if t == 0 then null else c[t - 1]
      invariant Linked(buckets[idx], c)
      invariant forall k :: 0 <= k < buckets.Length ==> buckets[k] == old(buckets[k])
      invariant forall j :: 0 <= j < t ==> c[j].key != key
      decreases |c| - t
    {
      if target.hash == hash && target.key == key {
        UnhookAt(buckets, idx, c, t, prev, target);
        return true, t;
      }
      prev := target;
      target := target.next;
      t := t + 1;
    }
    removed := false;
  }

  lemma HashesStored<V>(chains: seq<seq<Bucket<V>>>, idx: nat)
    requires Placed(chains) && idx < |chains|
    ensures Distinct(chains[idx])
    ensures forall j :: 0 <= j < |chains[idx]| ==> chains[idx][j].hash == Fnv.Hash(chains[idx][j].key)
  {
    PlacedApart(chains, idx, idx);
  }

  /** hashmap_insert for a key that is already there. */
  method Overwrite<V>(buckets: array<Bucket?<V>>, found: Bucket<V>, ghost idx: nat, val: V,
                      ghost chains: seq<seq<Bucket<V>>>, ghost contents: map<string, V>)
    requires Sound(buckets, chains, contents) && idx < |chains| && found in chains[idx]
    modifies found`val
    ensures Sound(buckets, chains, contents[found.key := val])
  {
    hide Linked, Fnv.Hash, Slot;
    ghost var m :| 0 <= m < |chains[idx]| && chains[idx][m] == found;
    forall i, j | 0 <= i < |chains| && 0 <= j < |chains[i]|
      ensures chains[i][j] != found ==> chains[i][j].key != found.key
    {
      KeyElsewhereDiffers(chains, idx, m, i, j);
    }
    found.val := val;
  }

  ghost function Dropped<V>(chains: seq<seq<Bucket<V>>>, idx: nat, t: nat): (dropped: seq<seq<Bucket<V>>>)
    requires idx < |chains| && t < |chains[idx]|
  {
    chains[idx := chains[idx][..t] + chains[idx][t + 1..]]
  }

  lemma PlacedDrop<V>(chains: seq<seq<Bucket<V>>>, idx: nat, t: nat)
    requires Placed(chains) && idx < |chains| && t < |chains[idx]|
    ensures Placed(Dropped(chains, idx, t))
  {
  }

  lemma BucketsOfDrop<V>(chains: seq<seq<Bucket<V>>>, idx: nat, t: nat)
    requires idx < |chains| && t < |chains[idx]|
    ensures BucketsOf(Dropped(chains, idx, t)) <= BucketsOf(chains)
  {
    var dropped: seq<seq<Bucket<V>>> := Dropped(chains, idx, t);
    forall b | b in BucketsOf(dropped)
      ensures b in BucketsOf(chains)
    {
      var i, m :| 0 <= i < |dropped| && 0 <= m < |dropped[i]| && dropped[i][m] == b;
      assert b == chains[i][if i == idx && m >= t then m + 1 else m];
    }
  }

  lemma KeyElsewhereDiffers<V>(chains: seq<seq<Bucket<V>>>, idx: nat, t: nat, i: nat, n: nat)
    requires Placed(chains) && idx < |chains| && t < |chains[idx]| && i < |chains| && n < |chains[i]|
    ensures chains[i][n].key == chains[idx][t].key <==> i == idx && n == t
  {
  }

  lemma HoldsDrop<V>(chains: seq<seq<Bucket<V>>>, contents: map<string, V>, idx: nat, t: nat)
    requires idx < |chains| && t < |chains[idx]| && Placed(chains) && Holds(chains, contents)
    ensures chains[idx][t].key in contents
    ensures Holds(Dropped(chains, idx, t), contents - {chains[idx][t].key})
  {
    hide Placed;
    var key := chains[idx][t].key;
    var dropped: seq<seq<Bucket<V>>> := Dropped(chains, idx, t);
    forall i, m | 0 <= i < |dropped| && 0 <= m < |dropped[i]|
      ensures dropped[i][m].key in contents - {key} && (contents - {key})[dropped[i][m].key] == dropped[i][m].val
    {
      var n := if i == idx && m >= t then m + 1 else m;
      assert dropped[i][m] == chains[i][n];
      KeyElsewhereDiffers(chains, idx, t, i, n);
    }
    forall k | k in contents - {key}
      ensures HasKey(dropped[Slot(Fnv.Hash(k), |dropped|)], k)
    {
      HasKeyAfterDrop(chains, idx, t, Slot(Fnv.Hash(k), |chains|), k);
    }
  }

  lemma HasKeyAfterDrop<V>(chains: seq<seq<Bucket<V>>>, idx: nat, t: nat, i: nat, k: string)
    requires idx < |chains| && t < |chains[idx]| && i < |chains| && HasKey(chains[i], k) && k != chains[idx][t].key
    ensures i < |Dropped(chains, idx, t)| && HasKey(Dropped(chains, idx, t)[i], k)
  {
    var m :| 0 <= m < |chains[i]| && chains[i][m].key == k;
    assert Dropped(chains, idx, t)[i][if i == idx && m > t then m - 1 else m].key == k;
  }

  method DropBucket<V>(buckets: array<Bucket?<V>>, key: string,
                       ghost chains: seq<seq<Bucket<V>>>, ghost contents: map<string, V>)
    returns (missing: bool, ghost idx: nat, ghost t: nat)
    requires Sound(buckets, chains, contents)
    modifies buckets, BucketsOf(chains)`next
    ensures missing == (key !in contents)
    ensures missing ==> Sound(buckets, chains, contents)
    ensures !missing ==> idx < |chains| && t < |chains[idx]|
                         && Sound(buckets, Dropped(chains, idx, t), contents - {key})
                         && BucketsOf(Dropped(chains, idx, t)) <= BucketsOf(chains)
  {
    hide Placed, Holds;
    var hash := Fnv.Fnv1aHash(key);
    var slot := hash % buckets.Length;
    idx := slot;
    SlotIsRemainder(hash, buckets.Length);
    HashesStored(chains, idx);
    HoldsKey(chains, contents, key);
    ChainInTable(chains, idx);
    var removed;
    removed, t := Unhook(buckets, slot, chains[slot], hash, key);
    missing := !removed;
    forall k | 0 <= k < |chains| && k != idx
      ensures Linked(buckets[k], chains[k])
    {
      PlacedApart(chains, idx, k);
      assert old(Linked(buckets[k], chains[k]));
    }
    if removed {
      PlacedDrop(chains, idx, t);
      HoldsDrop(chains, contents, idx, t);
      BucketsOfDrop(chains, idx, t);
    }
  }

  /** hashmap_insert once the table is large enough. */
  method PutBucket<V>(buckets: array<Bucket?<V>>, key: string, val: V,
                      ghost chains: seq<seq<Bucket<V>>>, ghost contents: map<string, V>)
    returns (added: bool, b: Bucket<V>, ghost idx: nat)
    requires Sound(buckets, chains, contents)
    modifies buckets, BucketsOf(chains)
    ensures fresh(b) && added == (key !in contents)
    ensures !added ==> Sound(buckets, chains, contents[key := val])
    ensures added ==> idx < |chains| && Sound(buckets, chains[idx := chains[idx] + [b]], contents[key := val])
                      && BucketsOf(chains[idx := chains[idx] + [b]]) == BucketsOf(chains) + {b}
  {
    hide Placed, Holds;
    b := new Bucket(key, val);
    var slot := b.hash % buckets.Length;
    idx := slot;
    SlotIsRemainder(b.hash, buckets.Length);
    HashesStored(chains, slot);
    HoldsKey(chains, contents, key);
    ChainInTable(chains, slot);
    var found := Seek(buckets[slot], chains[slot], b.hash, key);
    added := found == null;
    if found != null {
      Overwrite(buckets, found, slot, val, chains, contents);
    } else {
      AddBucket(buckets, slot, b, chains, contents);
    }
  }

  lemma ChainInTable<V>(chains: seq<seq<Bucket<V>>>, idx: nat)
    requires idx < |chains|
    ensures (set x | x in chains[idx]) <= BucketsOf(chains)
  {
    forall x | x in chains[idx]
      ensures x in BucketsOf(chains)
    {
      var m :| 0 <= m < |chains[idx]| && chains[idx][m] == x;
    }
  }

  /** The capacities reached by doubling from the default size. */
  ghost predicate IsCapacity(n: nat) {
    n == DEFAULT_SIZE || (n > DEFAULT_SIZE && n % 2 == 0 && IsCapacity(n / 2))
  }

  // ----- listing the keys -----

  ghost function ChainKeys<V>(c: seq<Bucket<V>>): seq<string> {
    seq(|c|, j requires 0 <= j < |c| => c[j].key)
  }

  ghost function ListedKeys<V>(chains: seq<seq<Bucket<V>>>, i: nat): seq<string>
    requires i <= |chains|
  {
    if i == 0 then [] else ListedKeys(chains, i - 1) + ChainKeys(chains[i - 1])
  }

  lemma {:induction false} ListedKeysDistinct<V>(chains: seq<seq<Bucket<V>>>, i: nat)
    requires Placed(chains) && i <= |chains|
    ensures Distinct(ListedKeys(chains, i))
    ensures forall k :: k in ListedKeys(chains, i) <==>
              |chains| > 0 && Slot(Fnv.Hash(k), |chains|) < i && HasKey(chains[Slot(Fnv.Hash(k), |chains|)], k)
  {
    if i > 0 {
      ListedKeysDistinct(chains, i - 1);
      var last := ChainKeys(chains[i - 1]);
      forall k
        ensures k in last <==> Slot(Fnv.Hash(k), |chains|) == i - 1 && HasKey(chains[i - 1], k)
      {
        if HasKey(chains[i - 1], k) {
          var j :| 0 <= j < |chains[i - 1]| && chains[i - 1][j].key == k;
          assert last[j] == k;
        }
      }
    }
  }

  lemma ListedKeysComplete<V>(chains: seq<seq<Bucket<V>>>, contents: map<string, V>, i: nat)
    requires |chains| > 0 && Placed(chains) && Holds(chains, contents) && i <= |chains|
    ensures Distinct(ListedKeys(chains, i)) && |ListedKeys(chains, i)| <= |contents|
    ensures i == |chains| ==> forall k :: k in ListedKeys(chains, i) <==> k in contents
    ensures i == |chains| ==> |ListedKeys(chains, i)| == |contents|
  {
    ListedKeysDistinct(chains, i);
    forall k | k in ListedKeys(chains, i)
      ensures k in contents.Keys
    {
      HoldsKey(chains, contents, k);
    }
    DistinctFits(ListedKeys(chains, i), contents.Keys);
    if i == |chains| {
      forall k | k in contents
        ensures k in ListedKeys(chains, i)
      {
        HoldsKey(chains, contents, k);
      }
      SetFits(ListedKeys(chains, i), contents.Keys);
    }
  }

  /** The two loops of hashmap_get_keys over an array of `capacity` slots. */
  method CollectKeys<V>(buckets: array<Bucket?<V>>, capacity: nat, ghost chains: seq<seq<Bucket<V>>>)
    returns (keys: array<string>, count: nat)
    requires |chains| == buckets.Length && forall i :: 0 <= i < |chains| ==> Linked(buckets[i], chains[i])
    requires forall i :: 0 <= i <= |chains| ==> |ListedKeys(chains, i)| <= capacity
    ensures fresh(keys) && keys.Length == capacity && count <= capacity
    ensures keys[..count] == ListedKeys(chains, |chains|)
  {
    keys := new string[capacity];
    count := 0;
    var i := 0;
    while i < buckets.Length
      invariant 0 <= i <= buckets.Length && count <= keys.Length
      invariant keys[..count] == ListedKeys(chains, i)
    {
      ghost var listed := keys[..count];
      ghost var c := chains[i];
      assert |ListedKeys(chains, i + 1)| <= capacity;
      var b := buckets[i];
      ghost var t := 0;
      while b != null
        invariant 0 <= t <= |c| && count == |listed| + t && |listed| + |c| <= keys.Length
        invariant b == if t < |c| then c[t] else null
        invariant keys[..count] == listed + ChainKeys(c)[..t]
        decreases |c| - t
      {
        keys[count] := b.key;
        count := count + 1;
        b := b.next;
        t := t + 1;
      }
      assert ChainKeys(c)[..t] == ChainKeys(c);
      i := i + 1;
    }
  }

  /** The load limit is the single-precision number nearest to 0.7, so the first table of sixteen slots doubles when
      the twelfth entry comes. */
  lemma LoadLimit(n: nat)
    ensures LOAD_UNIT == 0x100_0000 && -5 < 10 * LOAD - 7 * LOAD_UNIT < 5
    ensures LOAD_UNIT * n > LOAD * 16 <==> n >= 12
  {
  }

  class HashMap<V> {
    var buckets: array<Bucket?<V>>
    var nBuckets: nat
    ghost var chains: seq<seq<Bucket<V>>>
    ghost var contents: map<string, V>
    ghost var overwrites: nat
    ghost var Repr: set<object>

    ghost predicate Valid()
      reads this, Repr
    {
      && this in Repr && buckets in Repr && BucketsOf(chains) <= Repr
      && Sound(buckets, chains, contents)
      && IsCapacity(buckets.Length) && buckets.Length <= MAX_CAPACITY
      && nBuckets == |contents| + overwrites
      && LOAD_UNIT * nBuckets <= LOAD * buckets.Length
    }

    constructor ()
      ensures Valid() && fresh(Repr)
      ensures contents == map[] && nBuckets == overwrites == 0 && buckets.Length == 16
    {
      buckets := new Bucket?<V>[DEFAULT_SIZE](_ => null);
      nBuckets := 0;
      chains := seq(DEFAULT_SIZE, _ => []);
      contents, overwrites := map[], 0;
      Repr := {this, buckets};
    }

    method Resize()
      requires Valid() && RESIZE_SCALE_FACTOR * buckets.Length <= MAX_CAPACITY
      modifies Repr
      ensures Valid() && fresh(Repr - old(Repr)) && old(Repr) <= Repr
      ensures chains == Doubled(old(chains)) && buckets.Length == RESIZE_SCALE_FACTOR * old(buckets.Length)
      ensures contents == old(contents) && overwrites == old(overwrites) && nBuckets == old(nBuckets)
    {
      hide Sound, Doubled;
      var table := Rehash(buckets, chains, contents);
      buckets, chains := table, Doubled(chains);
      Repr := Repr + {table};
    }

    /** The part of hashmap_insert after the load check. */
    method Put(key: string, val: V)
      requires Valid() && LOAD_UNIT * (nBuckets + 1) <= LOAD * buckets.Length
      modifies Repr
      ensures Valid() && fresh(Repr - old(Repr)) && old(Repr) <= Repr
      ensures contents == old(contents)[key := val] && buckets == old(buckets)
      ensures nBuckets == old(nBuckets) + 1
      ensures overwrites == old(overwrites) + if key in old(contents) then 1 else 0
    {
      hide Sound, BucketsOf;
      nBuckets := nBuckets + 1;
      var added, b; ghost var idx;
      added, b, idx := PutBucket(buckets, key, val, chains, contents);
      if added {
        chains := chains[idx := chains[idx] + [b]];
        Repr := Repr + {b};
      } else {
        overwrites := overwrites + 1;
      }
      contents := contents[key := val];
    }

    method Insert(key: string, val: V)
      requires Valid() && nBuckets < LOAD_UNIT
      modifies Repr
      ensures Valid() && fresh(Repr - old(Repr)) && old(Repr) <= Repr
      ensures contents == old(contents)[key := val]
      ensures nBuckets == old(nBuckets) + 1
      ensures overwrites == old(overwrites) + if key in old(contents) then 1 else 0
      ensures buckets.Length == if LOAD_UNIT * (old(nBuckets) + 1) > LOAD * old(buckets.Length)
                                then 2 * old(buckets.Length) else old(buckets.Length)
    {
      hide Sound, Doubled;
      if LOAD_UNIT * (nBuckets + 1) > LOAD * buckets.Length {
        Resize();
      }
      Put(key, val);
    }

    method Get(key: string) returns (val: Option<V>)
      requires Valid()
      ensures val == if key in contents then Some(contents[key]) else None
    {
      hide Placed, Linked;
      var hash := Fnv.Fnv1aHash(key);
      var idx := hash % buckets.Length;
      SlotIsRemainder(hash, buckets.Length);
      HashesStored(chains, idx);
      HoldsKey(chains, contents, key);
      var found := Seek(buckets[idx], chains[idx], hash, key);
      val := if found == null then None else Some(found.val);
    }

    /** The returned flag is the error flag of the source: false when the key was removed. */
    method Remove(key: string) returns (missing: bool)
      requires Valid()
      modifies Repr
      ensures Valid() && Repr == old(Repr) && buckets == old(buckets)
      ensures missing <==> key !in old(contents)
      ensures contents == old(contents) - {key}
      ensures nBuckets == old(nBuckets) - (if missing then 0 else 1) && overwrites == old(overwrites)
    {
      hide Sound, BucketsOf;
      ghost var idx, t;
      missing, idx, t := DropBucket(buckets, key, chains, contents);
      if !missing {
        assert (contents - {key}).Keys == contents.Keys - {key};
        chains := Dropped(chains, idx, t);
        contents := contents - {key};
        nBuckets := nBuckets - 1;
      }
    }

    /** The array has room for `nBuckets` keys; `count` of them are filled in. */
    method GetKeys() returns (keys: array<string>, count: nat)
      requires Valid()
      ensures fresh(keys) && keys.Length == nBuckets
      ensures count == |contents| <= keys.Length
      ensures Distinct(keys[..count])
      ensures forall k :: k in keys[..count] <==> k in contents
    {
      hide Placed, Holds, Linked;
      forall i: nat | i <= |chains|
        ensures |ListedKeys(chains, i)| <= |contents|
      {
        ListedKeysComplete(chains, contents, i);
      }
      ListedKeysComplete(chains, contents, |chains|);
      keys, count := CollectKeys(buckets, nBuckets, chains);
    }
  }

  // ----- histories -----

  datatype Op<V> = Insert(key: string, val: V) | Remove(key: string) | Lookup(key: string)

  ghost function Applied<V>(contents: map<string, V>, op: Op<V>): map<string, V> {
    match op
    case Insert(key, val) => contents[key := val]
    case Remove(key) => contents - {key}
    case Lookup(_) => contents
  }

  /** What a table holds after a run of operations. */
  ghost function Replay<V>(ops: seq<Op<V>>): map<string, V> {
    if ops == [] then map[] else Applied(Replay(ops[..|ops| - 1]), ops[|ops| - 1])
  }

  ghost function Held<V>(contents: map<string, V>, key: string): Option<V> {
    if key in contents then Some(contents[key]) else None
  }

  /** Operation `i` is the last one that changed `key`, and it inserted `val`. */
  ghost predicate InsertedLast<V>(ops: seq<Op<V>>, key: string, val: V, i: int) {
    && 0 <= i < |ops| && ops[i] == Insert(key, val)
    && forall j :: i < j < |ops| && ops[j].key == key ==> ops[j].Lookup?
  }

  ghost predicate RemovedAfter<V>(ops: seq<Op<V>>, key: string, i: int) {
    exists j :: i < j < |ops| && 0 <= j && ops[j] == Remove(key)
  }

  /** Every insertion of `key` was followed by a removal. */
  ghost predicate Gone<V>(ops: seq<Op<V>>, key: string) {
    forall i :: 0 <= i < |ops| && ops[i].Insert? && ops[i].key == key ==> RemovedAfter(ops, key, i)
  }

  /** `answer` is the value inserted last and not removed since, or none if there is no such value. */
  ghost predicate RightAnswer<V>(ops: seq<Op<V>>, key: string, answer: Option<V>) {
    match answer
    case Some(val) => exists i :: InsertedLast(ops, key, val, i)
    case None => Gone(ops, key)
  }

  lemma {:induction false} LastOperationDecides<V>(ops: seq<Op<V>>, key: string)
    ensures RightAnswer(ops, key, Held(Replay(ops), key))
  {
    if ops != [] {
      var init, last := ops[..|ops| - 1], ops[|ops| - 1];
      LastOperationDecides(init, key);
      if last.key != key || last.Lookup? {
        StillRight(ops, init, key, Held(Replay(init), key));
      } else if last.Insert? {
        assert InsertedLast(ops, key, last.val, |init|);
      } else {
        assert ops[|init|] == Remove(key);
      }
    }
  }

  /** An operation that leaves `key` alone leaves the answer right. */
  lemma StillRight<V>(ops: seq<Op<V>>, init: seq<Op<V>>, key: string, answer: Option<V>)
    requires ops != [] && init == ops[..|ops| - 1] && (ops[|ops| - 1].key != key || ops[|ops| - 1].Lookup?)
    requires RightAnswer(init, key, answer)
    ensures RightAnswer(ops, key, answer)
  {
    match answer
    case Some(val) =>
      var i :| InsertedLast(init, key, val, i);
      forall j | i < j < |ops| && ops[j].key == key
        ensures ops[j].Lookup?
      {
        assert j < |init| ==> ops[j] == init[j];
      }
      assert InsertedLast(ops, key, val, i);
    case None =>
      forall i | 0 <= i < |ops| && ops[i].Insert? && ops[i].key == key
        ensures RemovedAfter(ops, key, i)
      {
        assert init[i] == ops[i];
        var j :| i < j < |init| && 0 <= j && init[j] == Remove(key);
        assert ops[j] == Remove(key);
      }
  }

  method PerformOne<V>(m: HashMap<V>, op: Op<V>) returns (answer: Option<V>)
    requires m.Valid() && m.nBuckets < LOAD_UNIT
    modifies m.Repr
    ensures m.Valid() && fresh(m.Repr - old(m.Repr)) && m.nBuckets <= old(m.nBuckets) + 1
    ensures m.contents == Applied(old(m.contents), op)
    ensures op.Lookup? ==> answer == Held(old(m.contents), op.key)
  {
    hide HashMap.Valid;
    answer := None;
    match op
    case Insert(key, val) => m.Insert(key, val);
    case Remove(key) => var _ := m.Remove(key);
    case Lookup(key) => answer := m.Get(key);
  }

  /** The table after any history of calls, and what the lookups among them returned: each the value inserted last
      and not removed since, across resizes and colliding chains. */
  method Perform<V>(ops: seq<Op<V>>) returns (m: HashMap<V>, found: seq<Option<V>>)
    requires |ops| < LOAD_UNIT
    ensures m.Valid() && m.contents == Replay(ops)
    ensures |found| == |ops|
    ensures forall i :: 0 <= i < |ops| && ops[i].Lookup? ==> RightAnswer(ops[..i], ops[i].key, found[i])
  {
    hide HashMap.Valid, RightAnswer, Applied;
    m := new HashMap();
    found := [];
    var i := 0;
    while i < |ops|
      invariant 0 <= i <= |ops| && |found| == i
      invariant m.Valid() && fresh(m.Repr) && m.contents == Replay(ops[..i]) && m.nBuckets <= i
      invariant forall j :: 0 <= j < i && ops[j].Lookup? ==> RightAnswer(ops[..j], ops[j].key, found[j])
      decreases |ops| - i
    {
      assert ops[..i + 1][..i] == ops[..i];
      LastOperationDecides(ops[..i], ops[i].key);
      var answer := PerformOne(m, ops[i]);
      found := found + [answer];
      i := i + 1;
    }
    assert ops[..|ops|] == ops;
  }
}
