/** The hash table, as the object whose array the operations probe and update. */
module HashTables {
  import opened Wrappers
  import opened ProbeTables

  /** All slots tried and none holds `k`. */
  lemma ProbeAll(t: seq<Entry>, hash: Hash, k: nat)
    requires |t| > 0 && Probed(t, hash, k, |t|)
    ensures !HasKey(t, k)
  {
    forall i: nat | i < |t|
      ensures t[i].key != k
    {
      var home := Home(hash, |t|, k);
      assert Off(|t|, home, Dist(|t|, home, i)) == i;
    }
  }

  lemma ProbedNext(t: seq<Entry>, hash: Hash, k: nat, d: nat)
    requires |t| > 0 && d < |t| && Probed(t, hash, k, d)
    requires var e := t[Off(|t|, Home(hash, |t|, k), d)]; e.key != 0 && e.key != k
    ensures Probed(t, hash, k, d + 1)
  {
  }

  /** A free slot bounds every search. */
  lemma ProbedBound(t: seq<Entry>, hash: Hash, k: nat, d: nat, free: nat)
    requires |t| > 0 && free < |t| && t[free].key == 0 && Probed(t, hash, k, d)
    ensures d <= Dist(|t|, Home(hash, |t|, k), free)
  {
    assert Off(|t|, Home(hash, |t|, k), Dist(|t|, Home(hash, |t|, k), free)) == free;
  }

  lemma SearchNext(t: seq<Entry>, hash: Hash, k: nat, d: nat, free: nat)
    requires d < |t| && free < |t| && t[free].key == 0 && Probed(t, hash, k, d)
    requires var e := t[Off(|t|, Home(hash, |t|, k), d)]; e.key != 0 && e.key != k
    ensures Probed(t, hash, k, d + 1) && d + 1 < |t|
    ensures Next(|t|, Off(|t|, Home(hash, |t|, k), d)) == Off(|t|, Home(hash, |t|, k), d + 1)
  {
    ProbedNext(t, hash, k, d);
    ProbedBound(t, hash, k, d + 1, free);
    NextOff(|t|, Home(hash, |t|, k), d);
  }

  lemma Found(t: seq<Entry>, m: map<nat, nat>, p: nat)
    requires Represents(t, m) && p < |t| && t[p].key != 0
    ensures t[p].key in m && m[t[p].key] == t[p].val
  {
  }

  lemma NotFound(t: seq<Entry>, m: map<nat, nat>, k: nat)
    requires Represents(t, m) && k != 0 && !HasKey(t, k)
    ensures k !in m
  {
  }

  function Next(capacity: nat, i: nat): nat
    requires i < capacity
  {
    if i + 1 == capacity then 0 else i + 1
  }

  lemma NextOff(capacity: nat, i: nat, d: nat)
    requires i < capacity && d < capacity
    ensures Next(capacity, Off(capacity, i, d)) == Off(capacity, i, d + 1)
    ensures Off(capacity, i, d + 1) == i <==> d + 1 == capacity
  {
  }

  function ThresholdFor(capacity: nat, f: real): int
  {
    (capacity as real * f).Floor
  }

  /** The load bound leaves room for one more key and for a free slot. */
  ghost predicate Loaded(threshold: nat, capacity: nat, f: real)
  {
    threshold == ThresholdFor(capacity, f) && threshold + 1 < capacity
  }

  /** The counters are those of the map `m`. */
  ghost predicate Sized(m: map<nat, nat>, zero: Option<nat>, size: nat, threshold: nat, capacity: nat, f: real)
  {
    && (zero.Some? <==> 0 in m) && (zero.Some? ==> m[0] == zero.value)
    && size == |m| && Loaded(threshold, capacity, f) && |m.Keys - {0}| < capacity
  }

  ghost predicate State(t: seq<Entry>, m: map<nat, nat>, hash: Hash, zero: Option<nat>, size: nat, threshold: nat, f: real)
  {
    Good(t, hash, -1) && Represents(t, m) && Sized(m, zero, size, threshold, |t|, f)
  }

  class HashTable {
    const hash: Hash
    const equals: Equality
    const loadfactor: real
    var table: array<Entry>
    /** The value of key 0. */
    var zero: Option<nat>
    var size: nat
    var threshold: nat
    /** Values by the classes of their keys. */
    ghost var contents: map<nat, nat>

    /** The slots, with every key replaced by its class. */
    ghost function View(): (t: seq<Entry>)
      reads this`table, table
      ensures |t| == table.Length
    {
      Classes(equals, table[..])
    }

    ghost predicate Valid()
      reads this, table
    {
      Lawful(equals, hash) && State(View(), contents, hash, zero, size, threshold, loadfactor)
    }

    /** The class of a key. */
    ghost function Of(key: nat): (k: nat)
      ensures k == 0 <==> key == 0
    {
      Class(equals, key)
    }

    /** With a larger threshold the table could fill up, and a search for a missing key would not end. */
    constructor (hashFunction: Hash, equality: Equality, initialCapacity: nat, factor: real)
      requires Lawful(equality, hashFunction)
      requires 0 <= ThresholdFor(initialCapacity, factor) && ThresholdFor(initialCapacity, factor) + 1 < initialCapacity
      ensures Valid() && contents == map[] && hash == hashFunction && equals == equality && fresh(table)
    {
      hash, equals, loadfactor := hashFunction, equality, factor;
      table := new Entry[initialCapacity](_ => FREE);
      zero, size := None, 0;
      threshold := ThresholdFor(initialCapacity, factor);
      contents := map[];
    }

    /** The value of a key, 0 if there is none. */
    method Get(key: nat) returns (val: nat)
      requires Valid()
      ensures val == if Of(key) in contents then contents[Of(key)] else 0
    {
      if key == 0 {
        return if zero.Some? then zero.value else 0;
      }
      ghost var t, k := View(), Of(key);
      assert Good(t, hash, -1) && Represents(t, contents);
      hide State, Good, Represents, Probed, Loaded, Class, Lawful, View, Home;
      ghost var d := 0;
      var oindex := Home(hash, table.Length, key);
      var index := oindex;
      ClassHome(equals, hash, table.Length, key);
      ProbedNone(t, hash, k);
      while true
        invariant d < |t| && index == Off(|t|, oindex, d) && Probed(t, hash, k, d)
        decreases |t| - d
      {
        var search := table[index];
        Compared(index, key);
        if search.key == 0 {
          ProbeMiss(t, hash, k, d);
          NotFound(t, contents, k);
          return 0;
        } else if Equals(equals, search.key, key) {
          Found(t, contents, index);
          return search.val;
        }
        ProbedNext(t, hash, k, d);
        NextOff(|t|, oindex, d);
        index := Next(table.Length, index);
        d := d + 1;
        if index == oindex {
          ProbeAll(t, hash, k);
          NotFound(t, contents, k);
          return 0;
        }
      }
    }

    /** What the comparison of a key with that of a slot tells about their classes. */
    lemma Compared(index: nat, key: nat)
      requires Lawful(equals, hash) && index < table.Length && key != 0
      ensures View()[index].val == table[index].val
      ensures View()[index].key == 0 <==> table[index].key == 0
      ensures table[index].key != 0 ==> (Equals(equals, table[index].key, key) <==> View()[index].key == Of(key))
    {
      if table[index].key != 0 {
        SameClass(equals, hash, table[index].key, key);
      }
    }

    /** Whether there is such a key; the search has no other end than a free slot. */
    method Contains(key: nat) returns (found: bool)
      requires Valid()
      ensures found <==> Of(key) in contents
    {
      if key == 0 {
        return zero.Some?;
      }
      hide Good, Represents, Probed, Loaded;
      var index, search := FindSlot(key);
      if search {
        Found(View(), contents, index);
      } else {
        NotFound(View(), contents, Of(key));
      }
      return search;
    }

    /** The slot of a key, or the free slot that ends the search. */
    method FindSlot(key: nat) returns (index: nat, found: bool)
      requires Valid() && key != 0
      ensures index < table.Length
      ensures found ==> View()[index].key == Of(key)
      ensures !found ==> View()[index] == FREE && !HasKey(View(), Of(key)) && IsInsertion(View(), hash, Of(key), index)
    {
      ghost var t, k := View(), Of(key);
      ghost var free := RoomLeft();
      assert Good(t, hash, -1);
      hide State, Good, Represents, Probed, HasKey, IsInsertion, Off, Home, Next;
      index := Home(hash, table.Length, key);
      ghost var home := index;
      ghost var d := 0;
      ClassHome(equals, hash, table.Length, key);
      ProbedNone(t, hash, k);
      while true
        invariant d < |t| && index == Off(|t|, home, d) && Probed(t, hash, k, d)
        decreases |t| - d
      {
        var search := table[index];
        Compared(index, key);
        if search.key == 0 {
          ProbeMiss(t, hash, k, d);
          FreeSlot(t, hash, index);
          Insertion(t, hash, k, index, d);
          return index, false;
        }
        if Equals(equals, search.key, key) {
          return index, true;
        }
        SearchNext(t, hash, k, d, free);
        index := Next(table.Length, index);
        d := d + 1;
      }
    }

    /** Adds or replaces the value of a key. */
    method Put(key: nat, val: nat)
      requires Valid()
      modifies this, table
      ensures Valid() && contents == old(contents)[Of(key) := val]
      ensures table == old(table) || fresh(table)
    {
      if key == 0 {
        PutZero(val);
        return;
      }
      hide State, Lawful, HasRoom, Class, View;
      if size > threshold {
        Resize(table.Length * 2);
      } else {
        RoomEnough();
      }
      PutKey(key, val);
    }

    lemma RoomEnough()
      requires Valid() && size <= threshold
      ensures HasRoom(contents, table.Length)
    {
      SizeOverThreshold(contents, zero, size, threshold, table.Length, loadfactor);
    }

    method PutZero(val: nat)
      requires Valid()
      modifies this`size, this`zero, this`contents
      ensures Valid() && contents == old(contents)[0 := val]
    {
      hide Good, HasKey, Sized, Represents;
      RepresentsZero(View(), contents, val);
      SizedZero(contents, zero, size, threshold, table.Length, loadfactor, val);
      if zero.None? {
        size := size + 1;
      }
      zero := Some(val);
      contents := contents[0 := val];
    }

    /** There is room for the key; a key already there stays as it was written. */
    method PutKey(key: nat, val: nat)
      requires Valid() && key != 0 && HasRoom(contents, table.Length)
      modifies this`size, this`contents, table
      ensures Valid() && contents == old(contents)[Of(key) := val]
    {
      hide State, HasKey, IsInsertion, HasRoom, Class, Lawful, View;
      var index, found := FindSlot(key);
      PutState(View(), contents, hash, zero, size, threshold, loadfactor, Of(key), val, index);
      WrittenClass(index, key, found);
      var e := Entry(if found then table[index].key else key, val);
      WriteEntry(index, e, Of(key), contents[Of(key) := val], if found then size else size + 1);
    }

    lemma WrittenClass(index: nat, key: nat, found: bool)
      requires index < table.Length && (found ==> View()[index].key == Of(key))
      ensures Class(equals, if found then table[index].key else key) == Of(key)
    {
      hide Class;
    }

    /** Writes an entry whose place and class are right. */
    method WriteEntry(index: nat, e: Entry, ghost k: nat, ghost m: map<nat, nat>, newSize: nat)
      requires Lawful(equals, hash) && index < table.Length && Class(equals, e.key) == k
      requires State(View()[index := Entry(k, e.val)], m, hash, zero, newSize, threshold, loadfactor)
      modifies this`size, this`contents, table
      ensures Valid() && contents == m
    {
      hide State, Class, Lawful;
      ClassesUpdate(equals, table[..], index, e);
      Store(table, index, e);
      size := newSize;
      contents := m;
    }

    /** Removes a key; its value, or 0. */
    method Remove(key: nat) returns (val: nat)
      requires Valid()
      modifies this, table
      ensures Valid() && contents == old(contents) - {Of(key)}
      ensures val == if Of(key) in old(contents) then old(contents)[Of(key)] else 0
      ensures table == old(table)
    {
      hide State, HasKey, IsInsertion;
      if key == 0 {
        val := RemoveZero();
        return;
      }
      var index, found := FindSlot(key);
      if !found {
        Absent(View(), contents, hash, zero, size, threshold, loadfactor, Of(key));
        return 0;
      }
      val := RemoveAt(index, key);
    }

    method RemoveAt(index: nat, key: nat) returns (val: nat)
      requires Valid() && key != 0 && index < table.Length && View()[index].key == Of(key)
      modifies this`size, this`contents, table
      ensures Valid() && Of(key) in old(contents) && contents == old(contents) - {Of(key)}
      ensures val == old(contents)[Of(key)]
    {
      hide State, HoleAt, NoHole, Sized, Class, Lawful, View;
      ghost var free := RemoveReady(index, key);
      val := table[index].val;
      size, contents := size - 1, contents - {Of(key)};
      CloseGap(index, free, contents);
      MakeState(View(), contents, hash, zero, size, threshold, loadfactor);
    }

    lemma RemoveReady(index: nat, key: nat) returns (free: nat)
      requires Valid() && key != 0 && index < table.Length && View()[index].key == Of(key)
      ensures Of(key) in contents && contents[Of(key)] == table[index].val && size > 0
      ensures free < table.Length && free != index && View()[free] == FREE
      ensures HoleAt(View(), hash, index, contents - {Of(key)})
      ensures Sized(contents - {Of(key)}, zero, size - 1, threshold, table.Length, loadfactor)
    {
      free := SomeFree(View(), contents);
      hide State, HoleAt, Sized, Class, Lawful, View;
      ViewAt(index);
      RemoveState(View(), contents, hash, zero, size, threshold, loadfactor, index, Of(key));
    }

    lemma ViewAt(index: nat)
      requires index < table.Length
      ensures View()[index].val == table[index].val
    {
    }

    method RemoveZero() returns (val: nat)
      requires Valid()
      modifies this`size, this`zero, this`contents
      ensures Valid() && contents == old(contents) - {0}
      ensures val == if 0 in old(contents) then old(contents)[0] else 0
    {
      hide Good, HasKey, Sized, Represents;
      RepresentsZero(View(), contents, 0);
      ZeroIs(contents, zero, size, threshold, table.Length, loadfactor);
      if zero.None? {
        assert contents - {0} == contents;
        return 0;
      }
      SizedRemoveZero(contents, zero, size, threshold, table.Length, loadfactor);
      val := zero.value;
      zero := None;
      size := size - 1;
      contents := contents - {0};
    }

    /** Frees the slot `hole` and moves later entries back over it, until none needs it. */
    method CloseGap(hole: nat, ghost free: nat, ghost m: map<nat, nat>)
      requires Lawful(equals, hash)
      requires hole < table.Length && free < table.Length && hole != free && View()[free] == FREE
      requires HoleAt(View(), hash, hole, m)
      modifies table
      ensures NoHole(View(), hash, m)
    {
      hide Good, Represents, HasKey, Class;
      var index: nat := hole;
      while true
        invariant index < table.Length && index != free && View()[free] == FREE
        invariant Good(View()[index := FREE], hash, index) && Represents(View()[index := FREE], m)
        decreases Dist(table.Length, index, free)
      {
        ghost var t := View()[index := FREE];
        ClassesUpdate(equals, table[..], index, FREE);
        Store(table, index, FREE);
        assert View() == t;
        var j, done := NextToMove(index, free);
        if done {
          return;
        }
        MoveGood(t, hash, index, j);
        MoveRepresents(t, index, j, m);
        ClassesUpdate(equals, table[..], index, table[j]);
        Store(table, index, table[j]);
        assert View() == t[index := t[j]];
        index := j;
      }
    }

    /** The first entry after the hole that needs it; done if a free slot comes first. */
    method NextToMove(hole: nat, ghost free: nat) returns (j: nat, done: bool)
      requires Lawful(equals, hash)
      requires hole < table.Length && free < table.Length && hole != free && View()[free] == FREE && View()[hole] == FREE
      requires Good(View(), hash, hole)
      ensures done ==> Good(View(), hash, -1)
      ensures j < table.Length
      ensures !done ==> j != hole && View()[j].key != 0 && !Beyond(View(), hash, hole, j)
      ensures !done ==> j != free && Dist(table.Length, j, free) < Dist(table.Length, hole, free)
    {
      ghost var t := View();
      ghost var s := 0;
      hide Good, Scanned, Class;
      NothingScanned(t, hash, hole);
      j := hole;
      while true
        invariant s < Dist(|t|, hole, free) && j == Off(|t|, hole, s) && Scanned(t, hash, hole, s + 1)
        decreases |t| - s
      {
        NextOff(|t|, hole, s);
        j := Next(table.Length, j);
        s := s + 1;
        var replace := table[j];
        if replace.key == 0 {
          ScanEnds(t, hash, hole, s);
          return j, true;
        }
        var home := Home(hash, table.Length, replace.key);
        ClassHome(equals, hash, table.Length, replace.key);
        BeyondTest(t, hash, hole, j);
        if hole <= j && hole < home && home <= j {
          ScanOne(t, hash, hole, s);
          continue;
        } else if hole > j && (hole < home || home <= j) {
          ScanOne(t, hash, hole, s);
          continue;
        }
        return j, false;
      }
    }

    method Resize(newSize: nat)
      requires Valid() && newSize == table.Length * 2
      modifies this`table, this`threshold
      ensures Valid() && fresh(table) && HasRoom(contents, table.Length)
    {
      SizedResize(contents, zero, size, threshold, table.Length, loadfactor);
      var newThreshold := ThresholdFor(newSize, loadfactor);
      assert newThreshold >= 0 && Sized(contents, zero, size, newThreshold, newSize, loadfactor) && HasRoom(contents, newSize);
      hide Good, Represents, Sized, HasRoom, ThresholdFor;
      var newtable := RehashAll(newSize);
      table, threshold := newtable, newThreshold;
    }

    /** Rehashes every entry into a table of `newSize` slots. */
    method RehashAll(newSize: nat) returns (newtable: array<Entry>)
      requires Valid() && newSize == table.Length * 2
      ensures fresh(newtable) && newtable.Length == newSize
      ensures Good(Classes(equals, newtable[..]), hash, -1) && Represents(Classes(equals, newtable[..]), contents)
    {
      ghost var old_t := View();
      newtable := new Entry[newSize](_ => FREE);
      ghost var m: map<nat, nat> := map[];
      EmptyGood(Classes(equals, newtable[..]), hash);
      CopiedNone(old_t);
      assert Good(old_t, hash, -1) && Represents(old_t, contents) && Sized(contents, zero, size, threshold, |old_t|, loadfactor);
      hide State, Good, Represents, HasKey, Copied, Sized;
      for bin := 0 to table.Length
        invariant Good(Classes(equals, newtable[..]), hash, -1) && Represents(Classes(equals, newtable[..]), m) && Copied(old_t, bin, m)
      {
        m := CopyBin(newtable, bin, old_t, m);
      }
      CopiedAll(Classes(equals, newtable[..]), old_t, m, contents);
    }

    /** One bin of the old table goes into the new one. */
    method CopyBin(newtable: array<Entry>, bin: nat, ghost old_t: seq<Entry>, ghost m: map<nat, nat>) returns (ghost after: map<nat, nat>)
      requires newtable != table && bin < table.Length && View() == old_t && newtable.Length == |old_t| * 2
      requires Valid() && Good(Classes(equals, newtable[..]), hash, -1)
      requires Represents(Classes(equals, newtable[..]), m) && Copied(old_t, bin, m)
      modifies newtable
      ensures Good(Classes(equals, newtable[..]), hash, -1)
      ensures Represents(Classes(equals, newtable[..]), after) && Copied(old_t, bin + 1, after)
    {
      var search := table[bin];
      ghost var t := Classes(equals, newtable[..]);
      after := m;
      hide Good, Represents, HasKey, Copied, Sized, Class;
      CopiedNext(old_t, hash, bin, m);
      if search.key != 0 {
        CopiedFits(old_t, bin, m, contents, zero, size, threshold, loadfactor);
        NotCopied(t, old_t, hash, bin, m);
        Rehash(newtable, search.key, search.val, m);
        after := m[Of(search.key) := search.val];
      }
    }

    /** Puts a key that the new table does not have into its first free slot. */
    method Rehash(newtable: array<Entry>, key: nat, val: nat, ghost m: map<nat, nat>)
      requires Lawful(equals, hash) && Good(Classes(equals, newtable[..]), hash, -1) && Represents(Classes(equals, newtable[..]), m)
      requires key != 0 && !HasKey(Classes(equals, newtable[..]), Of(key)) && |m.Keys - {0}| < newtable.Length
      modifies newtable
      ensures Good(Classes(equals, newtable[..]), hash, -1) && Represents(Classes(equals, newtable[..]), m[Of(key) := val])
    {
      ghost var t := Classes(equals, newtable[..]);
      var index := FindFree(newtable, key, m);
      hide Good, Represents, HasKey, IsInsertion, Class;
      InsertGoodAt(t, hash, Of(key), val, index);
      InsertRepresents(t, index, Of(key), val, m);
      ClassesUpdate(equals, newtable[..], index, Entry(key, val));
      Store(newtable, index, Entry(key, val));
    }

    method FindFree(newtable: array<Entry>, key: nat, ghost m: map<nat, nat>) returns (index: nat)
      requires Lawful(equals, hash) && Good(Classes(equals, newtable[..]), hash, -1) && Represents(Classes(equals, newtable[..]), m)
      requires key != 0 && !HasKey(Classes(equals, newtable[..]), Of(key)) && |m.Keys - {0}| < newtable.Length
      ensures index < newtable.Length && newtable[index].key == 0
      ensures IsInsertion(Classes(equals, newtable[..]), hash, Of(key), index)
    {
      ghost var t, k := Classes(equals, newtable[..]), Of(key);
      ghost var free := SomeFreeGood(t, hash, m);
      hide Good, Represents, HasKey, Probed, IsInsertion, Class;
      index := Home(hash, newtable.Length, key);
      ghost var home := index;
      ghost var d := 0;
      ClassHome(equals, hash, newtable.Length, key);
      ProbedNone(t, hash, k);
      while newtable[index].key != 0
        invariant d < |t| && index == Off(|t|, home, d) && Probed(t, hash, k, d)
        decreases |t| - d
      {
        OtherKey(t, k, index);
        SearchNext(t, hash, k, d, free);
        index := Next(newtable.Length, index);
        d := d + 1;
      }
      Insertion(t, hash, k, index, d);
    }

    /** Some slot is free. */
    ghost method RoomLeft() returns (free: nat)
      requires Valid()
      ensures free < table.Length && View()[free] == FREE
    {
      free := SomeFree(View(), contents);
    }
  }

  lemma ProbedNone(t: seq<Entry>, hash: Hash, k: nat)
    requires |t| > 0
    ensures Probed(t, hash, k, 0)
  {
  }

  lemma FreeSlot(t: seq<Entry>, hash: Hash, p: nat)
    requires Good(t, hash, -1) && p < |t| && t[p].key == 0
    ensures t[p] == FREE
  {
  }

  /** The free slot at which the search for `k` ends. */
  ghost predicate IsInsertion(t: seq<Entry>, hash: Hash, k: nat, p: nat)
  {
    |t| > 0 && exists d: nat :: d < |t| && Probed(t, hash, k, d) && p == Off(|t|, Home(hash, |t|, k), d)
  }

  lemma Insertion(t: seq<Entry>, hash: Hash, k: nat, p: nat, d: nat)
    requires d < |t| && Probed(t, hash, k, d) && p == Off(|t|, Home(hash, |t|, k), d)
    ensures IsInsertion(t, hash, k, p)
  {
  }

  lemma RepresentsZero(t: seq<Entry>, m: map<nat, nat>, v: nat)
    requires Represents(t, m)
    ensures Represents(t, m[0 := v]) && Represents(t, m - {0})
  {
    hide HasKey;
  }

  method Store(table: array<Entry>, index: nat, e: Entry)
    requires index < table.Length
    modifies table
    ensures table[..] == old(table[..])[index := e]
  {
    table[index] := e;
  }

  /** The table once slot `hole` is freed. */
  ghost predicate HoleAt(t: seq<Entry>, hash: Hash, hole: nat, m: map<nat, nat>)
  {
    hole < |t| && Good(t[hole := FREE], hash, hole) && Represents(t[hole := FREE], m)
  }

  ghost predicate NoHole(t: seq<Entry>, hash: Hash, m: map<nat, nat>)
  {
    Good(t, hash, -1) && Represents(t, m)
  }

  lemma MakeState(t: seq<Entry>, m: map<nat, nat>, hash: Hash, zero: Option<nat>, size: nat, threshold: nat, f: real)
    requires NoHole(t, hash, m) && Sized(m, zero, size, threshold, |t|, f)
    ensures State(t, m, hash, zero, size, threshold, f)
  {
  }

  lemma Absent(t: seq<Entry>, m: map<nat, nat>, hash: Hash, zero: Option<nat>, size: nat, threshold: nat, f: real, k: nat)
    requires State(t, m, hash, zero, size, threshold, f) && k != 0 && !HasKey(t, k)
    ensures k !in m && m - {k} == m
  {
    NotFound(t, m, k);
  }

  lemma PutState(t: seq<Entry>, m: map<nat, nat>, hash: Hash, zero: Option<nat>, size: nat, threshold: nat, f: real, k: nat, v: nat, p: nat)
    requires State(t, m, hash, zero, size, threshold, f) && HasRoom(m, |t|) && k != 0 && p < |t|
    requires t[p].key == k || (t[p].key == 0 && !HasKey(t, k) && IsInsertion(t, hash, k, p))
    ensures State(t[p := Entry(k, v)], m[k := v], hash, zero, if t[p].key == k then size else size + 1, threshold, f)
  {
    hide Good, Represents, HasKey, IsInsertion, Sized;
    SizedPut(m, zero, size, threshold, |t|, f, k, v);
    if t[p].key == k {
      Found(t, m, p);
      UpdateGood(t, hash, p, v);
      UpdateRepresents(t, hash, p, v, m);
    } else {
      NotFound(t, m, k);
      InsertGoodAt(t, hash, k, v, p);
      InsertRepresents(t, p, k, v, m);
    }
  }

  lemma RemoveState(t: seq<Entry>, m: map<nat, nat>, hash: Hash, zero: Option<nat>, size: nat, threshold: nat, f: real, p: nat, k: nat)
    requires State(t, m, hash, zero, size, threshold, f) && p < |t| && t[p].key == k && k != 0
    ensures k in m && m[k] == t[p].val && size > 0
    ensures HoleAt(t, hash, p, m - {k})
    ensures Sized(m - {k}, zero, size - 1, threshold, |t|, f)
  {
    hide Good, Represents, Sized;
    Found(t, m, p);
    SizedRemove(m, zero, size, threshold, |t|, f, t[p].key);
    RemoveGood(t, hash, p);
    RemoveRepresents(t, hash, p, m);
  }

  lemma InsertGoodAt(t: seq<Entry>, hash: Hash, k: nat, v: nat, p: nat)
    requires Good(t, hash, -1) && k != 0 && IsInsertion(t, hash, k, p) && p < |t| && t[p].key == 0
    ensures Good(t[p := Entry(k, v)], hash, -1)
  {
    var d: nat :| d < |t| && Probed(t, hash, k, d) && p == Off(|t|, Home(hash, |t|, k), d);
    InsertGood(t, hash, k, v, d);
  }

  lemma SomeFreeGood(t: seq<Entry>, hash: Hash, m: map<nat, nat>) returns (p: nat)
    requires Good(t, hash, -1) && Represents(t, m) && |m.Keys - {0}| < |t|
    ensures p < |t| && t[p].key == 0
  {
    p := SomeFree(t, m);
  }

  lemma OtherKey(t: seq<Entry>, k: nat, p: nat)
    requires !HasKey(t, k) && p < |t|
    ensures t[p].key != k
  {
  }

  // ----- Sizes -----

  lemma MapSize(m: map<nat, nat>)
    ensures |m| == |m.Keys|
  {
  }

  lemma KeysUpdated(m: map<nat, nat>, k: nat, v: nat)
    requires k in m && k != 0
    ensures |m[k := v]| == |m| && m[k := v].Keys - {0} == m.Keys - {0}
  {
    assert m[k := v].Keys == m.Keys;
    MapSize(m);
    MapSize(m[k := v]);
  }

  lemma KeysAdded(m: map<nat, nat>, k: nat, v: nat)
    requires k !in m && k != 0
    ensures |m[k := v]| == |m| + 1 && |m[k := v].Keys - {0}| == |m.Keys - {0}| + 1
  {
    assert m[k := v].Keys == m.Keys + {k};
    MapSize(m);
    MapSize(m[k := v]);
    assert (m.Keys + {k}) - {0} == (m.Keys - {0}) + {k};
  }

  lemma KeysRemoved(m: map<nat, nat>, k: nat)
    requires k in m
    ensures |m - {k}| == |m| - 1 && |(m - {k}).Keys - {0}| <= |m.Keys - {0}|
  {
    assert (m - {k}).Keys == m.Keys - {k};
    MapSize(m);
    MapSize(m - {k});
    SubsetSize((m - {k}).Keys - {0}, m.Keys - {0});
  }

  /** One more key leaves a slot free. */
  ghost predicate HasRoom(m: map<nat, nat>, capacity: nat)
  {
    |m.Keys - {0}| + 1 < capacity
  }

  lemma ZeroIs(m: map<nat, nat>, zero: Option<nat>, size: nat, threshold: nat, capacity: nat, f: real)
    requires Sized(m, zero, size, threshold, capacity, f)
    ensures zero == if 0 in m then Some(m[0]) else None
  {
  }

  lemma SizedZero(m: map<nat, nat>, zero: Option<nat>, size: nat, threshold: nat, capacity: nat, f: real, v: nat)
    requires Sized(m, zero, size, threshold, capacity, f)
    ensures Sized(m[0 := v], Some(v), if zero.None? then size + 1 else size, threshold, capacity, f)
  {
    assert m[0 := v].Keys - {0} == m.Keys - {0};
    assert m[0 := v].Keys == m.Keys + {0};
    assert |m[0 := v]| == |m[0 := v].Keys|;
    assert |m| == |m.Keys|;
  }

  lemma SizedRemoveZero(m: map<nat, nat>, zero: Option<nat>, size: nat, threshold: nat, capacity: nat, f: real)
    requires Sized(m, zero, size, threshold, capacity, f) && zero.Some?
    ensures size > 0 && Sized(m - {0}, None, size - 1, threshold, capacity, f)
  {
    KeysRemoved(m, 0);
  }

  lemma SizedPut(m: map<nat, nat>, zero: Option<nat>, size: nat, threshold: nat, capacity: nat, f: real, k: nat, v: nat)
    requires Sized(m, zero, size, threshold, capacity, f) && k != 0 && HasRoom(m, capacity)
    ensures Sized(m[k := v], zero, if k in m then size else size + 1, threshold, capacity, f)
  {
    if k in m {
      KeysUpdated(m, k, v);
    } else {
      KeysAdded(m, k, v);
    }
  }

  lemma SizedRemove(m: map<nat, nat>, zero: Option<nat>, size: nat, threshold: nat, capacity: nat, f: real, k: nat)
    requires Sized(m, zero, size, threshold, capacity, f) && k != 0 && k in m
    ensures size > 0 && Sized(m - {k}, zero, size - 1, threshold, capacity, f)
  {
    KeysRemoved(m, k);
  }

  lemma Doubled(capacity: nat, f: real)
    requires ThresholdFor(capacity, f) >= 0 && ThresholdFor(capacity, f) + 1 < capacity
    ensures var n := ThresholdFor(capacity * 2, f); 0 <= n && n + 1 < capacity * 2
  {
    var x := capacity as real * f;
    assert (capacity * 2) as real * f == x + x;
    assert x.Floor as real <= x < (x.Floor + 1) as real;
  }

  lemma SizedResize(m: map<nat, nat>, zero: Option<nat>, size: nat, threshold: nat, capacity: nat, f: real)
    requires Sized(m, zero, size, threshold, capacity, f)
    ensures var newThreshold := ThresholdFor(capacity * 2, f);
            && newThreshold >= 0
            && Sized(m, zero, size, newThreshold, capacity * 2, f)
            && HasRoom(m, capacity * 2)
  {
    hide ThresholdFor;
    Doubled(capacity, f);
  }

  lemma SizeOverThreshold(m: map<nat, nat>, zero: Option<nat>, size: nat, threshold: nat, capacity: nat, f: real)
    requires Sized(m, zero, size, threshold, capacity, f) && size <= threshold
    ensures HasRoom(m, capacity)
  {
    assert |m| == |m.Keys|;
    SubsetSize(m.Keys - {0}, m.Keys);
  }

  // ----- Rehashing -----

  lemma EmptyGood(t: seq<Entry>, hash: Hash)
    requires |t| > 0 && forall i :: 0 <= i < |t| ==> t[i] == FREE
    ensures Good(t, hash, -1) && Represents(t, map[])
  {
  }

  /** `m` holds exactly the first `n` entries. */
  ghost predicate Copied(t: seq<Entry>, n: nat, m: map<nat, nat>)
    requires n <= |t|
  {
    && (forall i: nat :: i < n && t[i].key != 0 ==> t[i].key in m && m[t[i].key] == t[i].val)
    && forall k: nat :: k in m ==> k != 0 && exists i: nat :: i < n && t[i].key == k
  }

  lemma CopiedNone(t: seq<Entry>)
    ensures Copied(t, 0, map[])
  {
  }

  lemma CopiedNext(t: seq<Entry>, hash: Hash, n: nat, m: map<nat, nat>)
    requires n < |t| && Copied(t, n, m) && Good(t, hash, -1)
    ensures Copied(t, n + 1, if t[n].key == 0 then m else m[t[n].key := t[n].val])
  {
    var u := if t[n].key == 0 then m else m[t[n].key := t[n].val];
    forall k: nat | k in u
      ensures k != 0 && exists i: nat :: i < n + 1 && t[i].key == k
    {
      if k in m {
        var i: nat :| i < n && t[i].key == k;
        assert i < n + 1;
      } else {
        assert t[n].key == k;
      }
    }
  }

  lemma NotCopied(newTable: seq<Entry>, t: seq<Entry>, hash: Hash, n: nat, m: map<nat, nat>)
    requires n < |t| && Copied(t, n, m) && Good(t, hash, -1) && t[n].key != 0 && Represents(newTable, m)
    ensures !HasKey(newTable, t[n].key)
  {
    forall i: nat | i < |newTable| && newTable[i].key != 0
      ensures newTable[i].key != t[n].key
    {
      var l: nat :| l < n && t[l].key == newTable[i].key;
      assert t[l].key != t[n].key;
    }
  }

  lemma CopiedFits(t: seq<Entry>, n: nat, m: map<nat, nat>, all: map<nat, nat>, zero: Option<nat>, size: nat, threshold: nat, f: real)
    requires n <= |t| && Copied(t, n, m) && Represents(t, all) && Sized(all, zero, size, threshold, |t|, f)
    ensures |m.Keys - {0}| < |t| * 2
  {
    forall k | k in m.Keys - {0}
      ensures k in all.Keys - {0}
    {
      var i: nat :| i < n && t[i].key == k;
    }
    SubsetSize(m.Keys - {0}, all.Keys - {0});
  }

  lemma CopiedAll(newTable: seq<Entry>, t: seq<Entry>, m: map<nat, nat>, all: map<nat, nat>)
    requires Copied(t, |t|, m) && Represents(t, all) && Represents(newTable, m)
    ensures Represents(newTable, all)
  {
    forall k: nat | k in all && k != 0
      ensures k in m && m[k] == all[k]
    {
      var i: nat :| i < |t| && t[i].key == k;
    }
    forall k: nat | k in m
      ensures k in all && m[k] == all[k]
    {
      var i: nat :| i < |t| && t[i].key == k;
    }
  }

  // ----- Scanning after a hole -----

  lemma NothingScanned(t: seq<Entry>, hash: Hash, hole: nat)
    requires hole < |t|
    ensures Scanned(t, hash, hole, 1)
  {
  }

  lemma ScanOne(t: seq<Entry>, hash: Hash, hole: nat, s: nat)
    requires hole < |t| && 0 < s < |t| && Scanned(t, hash, hole, s)
    requires t[Off(|t|, hole, s)].key != 0 && Beyond(t, hash, hole, Off(|t|, hole, s))
    ensures Scanned(t, hash, hole, s + 1)
  {
  }
}
