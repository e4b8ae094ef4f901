/**
 Open addressing with linear probing. The entries of a table are reached from the home
 slot of their key without a gap; a removal moves later entries back so that this stays so.
 */
module ProbeTables {

  /** Key 0 marks a free slot. */
  datatype Entry = Entry(key: nat, val: nat)

  const FREE := Entry(0, 0)

  type Hash = nat -> nat

  function HashOf(hash: Hash, key: nat): nat
  {
    hash(key)
  }

  // ----- Equality of keys -----

  type Equality = (nat, nat) -> bool

  function Equals(eq: Equality, a: nat, b: nat): bool
  {
    eq(a, b)
  }

  /** Any equivalence of the keys but 0, with a hash function that respects it. */
  ghost predicate Lawful(eq: Equality, hash: Hash)
  {
    && (forall a: nat :: a != 0 ==> Equals(eq, a, a))
    && (forall a: nat, b: nat :: Equals(eq, a, b) ==> Equals(eq, b, a) && HashOf(hash, a) == HashOf(hash, b))
    && forall a: nat, b: nat, c: nat :: Equals(eq, a, b) && Equals(eq, b, c) ==> Equals(eq, a, c)
  }

  /** The class of a key, by its least member; 0 stays alone. */
  ghost function Class(eq: Equality, k: nat): (r: nat)
    ensures r == 0 <==> k == 0
    ensures r <= k && (r != k ==> Equals(eq, r, k))
  {
    if k == 0 then 0 else Least(eq, k, 1)
  }

  ghost function Least(eq: Equality, k: nat, from: nat): (r: nat)
    requires 0 < from <= k
    ensures from <= r <= k && (r != k ==> Equals(eq, r, k))
    ensures forall a :: from <= a < r ==> !Equals(eq, a, k)
    decreases k - from
  {
    if from == k || Equals(eq, from, k) then from else Least(eq, k, from + 1)
  }

  /** Keys are equal exactly if their classes are the same. */
  lemma SameClass(eq: Equality, hash: Hash, a: nat, b: nat)
    requires Lawful(eq, hash) && a != 0 && b != 0
    ensures Equals(eq, a, b) <==> Class(eq, a) == Class(eq, b)
  {
    var r, s := Class(eq, a), Class(eq, b);
    assert Equals(eq, r, a) && Equals(eq, s, b);
    if Equals(eq, a, b) {
      assert Equals(eq, r, b) && Equals(eq, b, a) && Equals(eq, s, a);
    }
    if r == s {
      assert Equals(eq, a, r);
    }
  }

  lemma ClassHash(eq: Equality, hash: Hash, k: nat)
    requires Lawful(eq, hash)
    ensures HashOf(hash, Class(eq, k)) == HashOf(hash, k)
  {
  }

  /** The table with every key replaced by its class. */
  ghost function Classes(eq: Equality, t: seq<Entry>): (r: seq<Entry>)
    ensures |r| == |t|
    ensures forall i :: 0 <= i < |t| ==> r[i] == Entry(Class(eq, t[i].key), t[i].val)
  {
    seq(|t|, i requires 0 <= i < |t| => Entry(Class(eq, t[i].key), t[i].val))
  }

  lemma ClassesUpdate(eq: Equality, t: seq<Entry>, p: nat, e: Entry)
    requires p < |t|
    ensures Classes(eq, t[p := e]) == Classes(eq, t)[p := Entry(Class(eq, e.key), e.val)]
  {
  }

  // ----- Slots -----

  /** The home slot: capacities are powers of two, so the mask is the remainder. */
  function Home(hash: Hash, capacity: nat, key: nat): (h: nat)
    requires capacity > 0
    ensures h < capacity
  {
    HashOf(hash, key) % capacity
  }

  lemma ClassHome(eq: Equality, hash: Hash, capacity: nat, k: nat)
    requires Lawful(eq, hash) && capacity > 0
    ensures Home(hash, capacity, Class(eq, k)) == Home(hash, capacity, k)
  {
    ClassHash(eq, hash, k);
  }

  /** The slot `d` places after `i`, around the end. */
  function Off(capacity: nat, i: nat, d: nat): (p: nat)
    requires i < capacity && d <= capacity
    ensures p < capacity
  {
    if i + d < capacity then i + d else i + d - capacity
  }

  /** How many places after `i` the slot `j` comes. */
  function Dist(capacity: nat, i: nat, j: nat): (d: nat)
    requires i < capacity && j < capacity
    ensures d < capacity && Off(capacity, i, d) == j
  {
    if i <= j then j - i else j + capacity - i
  }

  // ----- The invariant -----

  /** From its home slot to slot `i` the entry meets no free slot, except perhaps `hole`. */
  ghost predicate Reached(t: seq<Entry>, hash: Hash, i: nat, hole: int)
    requires i < |t|
  {
    var home := Home(hash, |t|, t[i].key);
    forall e: nat :: e < Dist(|t|, home, i) ==> t[Off(|t|, home, e)].key != 0 || Off(|t|, home, e) == hole
  }

  ghost predicate KeysDiffer(t: seq<Entry>)
  {
    forall i: nat, j: nat :: i < j < |t| && t[i].key != 0 ==> t[i].key != t[j].key
  }

  /** Removal leaves nothing behind in a free slot. */
  ghost predicate FreeIsEmpty(t: seq<Entry>)
  {
    forall i: nat :: i < |t| && t[i].key == 0 ==> t[i] == FREE
  }

  ghost predicate AllReached(t: seq<Entry>, hash: Hash, hole: int)
  {
    forall i: nat :: i < |t| && t[i].key != 0 ==> Reached(t, hash, i, hole)
  }

  ghost predicate Good(t: seq<Entry>, hash: Hash, hole: int)
  {
    |t| > 0 && KeysDiffer(t) && FreeIsEmpty(t) && AllReached(t, hash, hole)
  }

  /** The entries are those of the map `m`, apart from key 0. */
  ghost predicate Represents(t: seq<Entry>, m: map<nat, nat>)
  {
    && (forall i: nat :: i < |t| && t[i].key != 0 ==> t[i].key in m && m[t[i].key] == t[i].val)
    && forall k: nat :: k in m && k != 0 ==> HasKey(t, k)
  }

  ghost predicate HasKey(t: seq<Entry>, k: nat)
  {
    exists i: nat :: i < |t| && t[i].key == k
  }

  // ----- Probing -----

  /** The first `d` slots from the home slot of `k` hold other keys. */
  ghost predicate Probed(t: seq<Entry>, hash: Hash, k: nat, d: nat)
    requires |t| > 0
  {
    d <= |t| && forall e: nat :: e < d ==> t[Off(|t|, Home(hash, |t|, k), e)].key != 0 && t[Off(|t|, Home(hash, |t|, k), e)].key != k
  }

  /** A free slot on the way ends the search. */
  lemma ProbeMiss(t: seq<Entry>, hash: Hash, k: nat, d: nat)
    requires Good(t, hash, -1) && k != 0 && d < |t| && Probed(t, hash, k, d)
    requires t[Off(|t|, Home(hash, |t|, k), d)].key == 0
    ensures !HasKey(t, k)
  {
    forall i: nat | i < |t| && t[i].key != 0
      ensures t[i].key != k
    {
      assert Reached(t, hash, i, -1);
      var home := Home(hash, |t|, t[i].key);
      assert Off(|t|, home, Dist(|t|, home, i)) == i;
    }
  }

  /** A new entry goes into the first free slot. */
  lemma InsertGood(t: seq<Entry>, hash: Hash, k: nat, v: nat, d: nat)
    requires Good(t, hash, -1) && k != 0 && d < |t| && Probed(t, hash, k, d)
    requires t[Off(|t|, Home(hash, |t|, k), d)].key == 0
    ensures Good(t[Off(|t|, Home(hash, |t|, k), d) := Entry(k, v)], hash, -1)
  {
    ProbeMiss(t, hash, k, d);
    var p := Off(|t|, Home(hash, |t|, k), d);
    var u := t[p := Entry(k, v)];
    forall i: nat | i < |u| && u[i].key != 0
      ensures Reached(u, hash, i, -1)
    {
      if i != p {
        assert Reached(t, hash, i, -1);
      }
    }
  }

  lemma InsertRepresents(t: seq<Entry>, p: nat, k: nat, v: nat, m: map<nat, nat>)
    requires Represents(t, m) && p < |t| && t[p].key == 0 && k != 0 && !HasKey(t, k)
    ensures Represents(t[p := Entry(k, v)], m[k := v])
  {
    var u := t[p := Entry(k, v)];
    forall j: nat | j in m[k := v] && j != 0
      ensures HasKey(u, j)
    {
      if j == k {
        assert u[p].key == k;
      } else {
        var i: nat :| i < |t| && t[i].key == j;
        assert u[i].key == j;
      }
    }
  }

  lemma UpdateGood(t: seq<Entry>, hash: Hash, p: nat, v: nat)
    requires Good(t, hash, -1) && p < |t| && t[p].key != 0
    ensures Good(t[p := Entry(t[p].key, v)], hash, -1)
  {
    var u := t[p := Entry(t[p].key, v)];
    forall i: nat | i < |u| && u[i].key != 0
      ensures Reached(u, hash, i, -1)
    {
      assert Reached(t, hash, i, -1);
    }
  }

  lemma UpdateRepresents(t: seq<Entry>, hash: Hash, p: nat, v: nat, m: map<nat, nat>)
    requires Good(t, hash, -1) && Represents(t, m) && p < |t| && t[p].key != 0
    ensures Represents(t[p := Entry(t[p].key, v)], m[t[p].key := v])
  {
    var u := t[p := Entry(t[p].key, v)];
    forall j: nat | j in m[t[p].key := v] && j != 0
      ensures HasKey(u, j)
    {
      if j == t[p].key {
        assert u[p].key == j;
      } else {
        var i: nat :| i < |t| && t[i].key == j;
        assert u[i].key == j;
      }
    }
  }

  // ----- Removal -----

  lemma RemoveGood(t: seq<Entry>, hash: Hash, p: nat)
    requires Good(t, hash, -1) && p < |t| && t[p].key != 0
    ensures Good(t[p := FREE], hash, p)
  {
    var u := t[p := FREE];
    forall i: nat | i < |u| && u[i].key != 0
      ensures Reached(u, hash, i, p)
    {
      assert Reached(t, hash, i, -1);
    }
  }

  lemma RemoveRepresents(t: seq<Entry>, hash: Hash, p: nat, m: map<nat, nat>)
    requires Good(t, hash, -1) && Represents(t, m) && p < |t| && t[p].key != 0
    ensures Represents(t[p := FREE], m - {t[p].key})
  {
    var u := t[p := FREE];
    forall j: nat | j in m - {t[p].key} && j != 0
      ensures HasKey(u, j)
    {
      var i: nat :| i < |t| && t[i].key == j;
      assert u[i].key == j;
    }
  }

  /** The entry at slot `j` does not need the hole: its home comes after it. */
  ghost predicate Beyond(t: seq<Entry>, hash: Hash, hole: nat, j: nat)
    requires hole < |t| && j < |t|
  {
    Dist(|t|, Home(hash, |t|, t[j].key), j) < Dist(|t|, hole, j)
  }

  /** The slots after the hole, up to but not including the `s`-th, are taken by entries that do not need it. */
  ghost predicate Scanned(t: seq<Entry>, hash: Hash, hole: nat, s: nat)
    requires hole < |t| && s <= |t|
  {
    forall r: nat :: 0 < r < s ==> t[Off(|t|, hole, r)].key != 0 && Beyond(t, hash, hole, Off(|t|, hole, r))
  }

  /** The test by which the loop goes on: home lies after the hole and not after `j`, around the end. */
  lemma BeyondTest(t: seq<Entry>, hash: Hash, hole: nat, j: nat)
    requires hole < |t| && j < |t| && hole != j
    ensures var home := Home(hash, |t|, t[j].key);
            Beyond(t, hash, hole, j) <==> (hole <= j && hole < home && home <= j) || (hole > j && (hole < home || home <= j))
  {
  }

  /** An entry that needs the hole moves into it and leaves a hole behind. */
  lemma MoveGood(t: seq<Entry>, hash: Hash, hole: nat, j: nat)
    requires Good(t, hash, hole) && hole < |t| && j < |t| && j != hole && t[hole] == FREE && t[j].key != 0
    requires !Beyond(t, hash, hole, j)
    ensures Good(t[hole := t[j]][j := FREE], hash, j)
  {
    var u := t[hole := t[j]][j := FREE];
    forall i: nat | i < |u| && u[i].key != 0
      ensures Reached(u, hash, i, j)
    {
      assert Reached(t, hash, if i == hole then j else i, hole);
    }
  }

  lemma MoveRepresents(t: seq<Entry>, hole: nat, j: nat, m: map<nat, nat>)
    requires Represents(t, m) && hole < |t| && j < |t| && j != hole && t[hole] == FREE && t[j].key != 0
    ensures Represents(t[hole := t[j]][j := FREE], m)
  {
    var u := t[hole := t[j]][j := FREE];
    forall k: nat | k in m && k != 0
      ensures HasKey(u, k)
    {
      var i: nat :| i < |t| && t[i].key == k;
      assert u[if i == j then hole else i].key == k;
    }
  }

  lemma Between(capacity: nat, home: nat, hole: nat, i: nat, s: nat)
    requires home < capacity && hole < capacity && i < capacity && 0 < s
    ensures var r, d := Dist(capacity, hole, i), Dist(capacity, home, i);
            s < r <= d ==> Off(capacity, home, d - r + s) == Off(capacity, hole, s) != hole
  {
  }

  /** Once the scan meets a free slot, nothing needs the hole. */
  lemma ScanEnds(t: seq<Entry>, hash: Hash, hole: nat, s: nat)
    requires Good(t, hash, hole) && hole < |t| && t[hole] == FREE && 0 < s <= |t| && Scanned(t, hash, hole, s)
    requires t[Off(|t|, hole, s)].key == 0
    ensures Good(t, hash, -1)
  {
    forall i: nat | i < |t| && t[i].key != 0
      ensures Reached(t, hash, i, -1)
    {
      assert Reached(t, hash, i, hole);
      Between(|t|, Home(hash, |t|, t[i].key), hole, i, s);
      assert Off(|t|, hole, Dist(|t|, hole, i)) == i;
      assert Beyond(t, hash, hole, i);
    }
  }

  // ----- Free slots -----

  lemma {:induction false} DistinctKeys(t: seq<Entry>, m: map<nat, nat>, n: nat)
    requires KeysDiffer(t) && Represents(t, m) && n <= |t| && forall i: nat :: i < n ==> t[i].key != 0
    ensures n <= |m.Keys - {0}|
  {
    var keys := set i: nat | i < n :: t[i].key;
    KeyCount(t, n);
    assert keys <= m.Keys - {0};
    SubsetSize(keys, m.Keys - {0});
  }

  lemma {:induction false} KeyCount(t: seq<Entry>, n: nat)
    requires KeysDiffer(t) && n <= |t| && forall i: nat :: i < n ==> t[i].key != 0
    ensures |set i: nat | i < n :: t[i].key| == n
  {
    var keys := set i: nat | i < n :: t[i].key;
    if n > 0 {
      KeyCount(t, n - 1);
      var fewer := set i: nat | i < n - 1 :: t[i].key;
      assert keys == fewer + {t[n - 1].key};
      assert t[n - 1].key !in fewer;
    } else {
      assert keys == {};
    }
  }

  lemma {:induction false} SubsetSize<T>(a: set<T>, b: set<T>)
    requires a <= b
    ensures |a| <= |b|
  {
    if a != {} {
      var x :| x in a;
      SubsetSize(a - {x}, b - {x});
    }
  }

  /** With fewer entries than slots some slot is free. */
  lemma SomeFree(t: seq<Entry>, m: map<nat, nat>) returns (p: nat)
    requires KeysDiffer(t) && Represents(t, m) && |m.Keys - {0}| < |t|
    ensures p < |t| && t[p].key == 0
  {
    if forall i: nat :: i < |t| ==> t[i].key != 0 {
      DistinctKeys(t, m, |t|);
      assert false;
    }
    p :| p < |t| && t[p].key == 0;
  }
}
