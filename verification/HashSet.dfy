/**
 The hash set: a table from keys to the nodes of a doubly linked list that keeps the keys
 in the order of their insertion. Nodes are found by their address in a store.
 */
module HashSets {
  import opened ProbeTables
  import opened HashTables

  datatype LinkNode = LinkNode(key: nat, prev: nat, next: nat)

  const NULL: nat := 0

  /** The address at position `i`; NULL before the first and after the last. */
  ghost function AddressAt(order: seq<nat>, i: int): nat
  {
    if 0 <= i < |order| then order[i] else NULL
  }

  /** The node at position `i` is linked to its neighbours. */
  ghost predicate NodeOk(nodes: map<nat, LinkNode>, order: seq<nat>, i: nat)
    requires i < |order|
  {
    && order[i] != NULL && order[i] in nodes
    && nodes[order[i]].prev == AddressAt(order, i - 1) && nodes[order[i]].next == AddressAt(order, i + 1)
  }

  ghost predicate Apart(order: seq<nat>)
  {
    forall i: nat, j: nat :: i < j < |order| ==> order[i] != order[j]
  }

  /** The nodes at `order` are linked in that order, both ways. */
  ghost predicate Linked(nodes: map<nat, LinkNode>, order: seq<nat>)
  {
    Apart(order) && forall i: nat :: i < |order| ==> NodeOk(nodes, order, i)
  }

  /** The keys in the order of the list. */
  ghost function KeysOf(nodes: map<nat, LinkNode>, order: seq<nat>): (r: seq<nat>)
    ensures |r| == |order| && forall i :: 0 <= i < |r| ==> r[i] == KeyOf(nodes, order[i])
  {
    seq(|order|, i requires 0 <= i < |order| => KeyOf(nodes, order[i]))
  }

  ghost function KeyOf(nodes: map<nat, LinkNode>, a: nat): nat
  {
    if a in nodes then nodes[a].key else 0
  }

  /** The class of the key of a node. */
  ghost function ClassOf(eq: Equality, nodes: map<nat, LinkNode>, a: nat): nat
  {
    Class(eq, KeyOf(nodes, a))
  }

  /** Some key of the list is equal to this one. */
  ghost predicate InKeys(eq: Equality, keys: seq<nat>, key: nat)
  {
    exists i: nat :: i < |keys| && SameKey(eq, keys[i], key)
  }

  ghost predicate SameKey(eq: Equality, a: nat, b: nat)
  {
    Class(eq, a) == Class(eq, b)
  }

  /** The table finds the node of every key of the list, and nothing else. */
  ghost predicate Indexed(eq: Equality, nodes: map<nat, LinkNode>, order: seq<nat>, contents: map<nat, nat>)
  {
    && (forall i: nat :: i < |order| ==> Finds(contents, ClassOf(eq, nodes, order[i]), order[i]))
    && forall k: nat :: k in contents ==> contents[k] in order && ClassOf(eq, nodes, contents[k]) == k
  }

  ghost predicate Finds(contents: map<nat, nat>, k: nat, a: nat)
  {
    k in contents && contents[k] == a
  }

  ghost function Without(s: seq<nat>, i: nat): (r: seq<nat>)
    requires i < |s|
    ensures |r| == |s| - 1
    ensures forall j :: 0 <= j < |r| ==> r[j] == s[if j < i then j else j + 1]
  {
    s[..i] + s[i + 1..]
  }

  // ----- A new last node -----

  ghost function Appended(nodes: map<nat, LinkNode>, tail: nat, n: nat, key: nat): map<nat, LinkNode>
  {
    (if tail in nodes then nodes[tail := nodes[tail].(next := n)] else nodes)[n := LinkNode(key, tail, NULL)]
  }

  lemma AppendedNode(nodes: map<nat, LinkNode>, order: seq<nat>, n: nat, key: nat, i: nat)
    requires Linked(nodes, order) && n != NULL && n !in order && i <= |order| && NULL !in nodes
    ensures NodeOk(Appended(nodes, AddressAt(order, |order| - 1), n, key), order + [n], i)
    ensures KeyOf(Appended(nodes, AddressAt(order, |order| - 1), n, key), (order + [n])[i]) ==
            if i < |order| then KeyOf(nodes, order[i]) else key
  {
    var last := |order| - 1;
    AddressAppend(order, n, i - 1);
    AddressAppend(order, n, i + 1);
    AddressAppend(order, n, i);
    if i < |order| {
      assert NodeOk(nodes, order, i) && NodeOk(nodes, order, last);
      assert order[i] == order[last] <==> i == last;
      assert order[i] != n;
    } else if order != [] {
      assert NodeOk(nodes, order, last);
    }
  }

  lemma AddressAppend(order: seq<nat>, n: nat, j: int)
    ensures AddressAt(order + [n], j) == if j == |order| then n else AddressAt(order, j)
  {
  }

  lemma AppendLinked(nodes: map<nat, LinkNode>, order: seq<nat>, n: nat, key: nat)
    requires Linked(nodes, order) && n != NULL && n !in order && NULL !in nodes
    ensures var after := Appended(nodes, AddressAt(order, |order| - 1), n, key);
            Linked(after, order + [n]) && KeysOf(after, order + [n]) == KeysOf(nodes, order) + [key]
  {
    hide Appended, NodeOk, KeyOf;
    var after, all := Appended(nodes, AddressAt(order, |order| - 1), n, key), order + [n];
    forall i: nat | i < |order|
      ensures order[i] != n && all[i] == order[i]
    {
      assert order[i] in order;
    }
    assert Apart(all);
    forall i: nat | i < |all|
      ensures NodeOk(after, all, i) && KeyOf(after, all[i]) == (KeysOf(nodes, order) + [key])[i]
    {
      AppendedNode(nodes, order, n, key, i);
    }
  }

  lemma AppendIndexed(eq: Equality, nodes: map<nat, LinkNode>, order: seq<nat>, n: nat, key: nat, after: map<nat, LinkNode>, contents: map<nat, nat>)
    requires Indexed(eq, nodes, order, contents) && Class(eq, key) !in contents
    requires KeysOf(after, order + [n]) == KeysOf(nodes, order) + [key]
    ensures Indexed(eq, after, order + [n], contents[Class(eq, key) := n])
  {
    hide KeyOf, Class;
    var all, c := order + [n], Class(eq, key);
    forall i: nat | i < |all|
      ensures ClassOf(eq, after, all[i]) == if i < |order| then ClassOf(eq, nodes, order[i]) else c
    {
      assert KeysOf(after, all)[i] == (KeysOf(nodes, order) + [key])[i];
    }
    hide ClassOf;
    forall i: nat | i < |all|
      ensures Finds(contents[c := n], ClassOf(eq, after, all[i]), all[i])
    {
      assert i < |order| ==> Finds(contents, ClassOf(eq, nodes, order[i]), order[i]);
    }
    forall k: nat | k in contents
      ensures contents[k] in all && ClassOf(eq, after, contents[k]) == k
    {
      var p: nat :| p < |order| && order[p] == contents[k];
      assert all[p] == order[p];
    }
    assert all[|order|] == n;
  }

  // ----- A node taken out -----

  ghost function Unlinked(nodes: map<nat, LinkNode>, a: nat): map<nat, LinkNode>
    requires a in nodes
  {
    var n := nodes[a];
    var b := if n.prev in nodes then nodes[n.prev := nodes[n.prev].(next := n.next)] else nodes;
    var c := if n.next in b then b[n.next := b[n.next].(prev := n.prev)] else b;
    c - {a}
  }

  lemma UnlinkedNode(nodes: map<nat, LinkNode>, order: seq<nat>, i: nat, k: nat)
    requires Linked(nodes, order) && i < |order| && k < |order| && k != i && NULL !in nodes && order[i] in nodes
    ensures var after := Unlinked(nodes, order[i]);
            && order[k] in after && order[k] != NULL
            && after[order[k]] == LinkNode(KeyOf(nodes, order[k]),
                                           AddressAt(order, if k == i + 1 then i - 1 else k - 1),
                                           AddressAt(order, if k == i - 1 then i + 1 else k + 1))
  {
    assert NodeOk(nodes, order, i) && NodeOk(nodes, order, k);
    assert order[k] != order[i];
    if i > 0 {
      assert NodeOk(nodes, order, i - 1);
      assert order[k] == order[i - 1] <==> k == i - 1;
    }
    if i + 1 < |order| {
      assert NodeOk(nodes, order, i + 1);
      assert order[k] == order[i + 1] <==> k == i + 1;
    }
  }

  lemma WithoutAt(order: seq<nat>, i: nat, j: int)
    requires i < |order|
    ensures AddressAt(Without(order, i), j) == AddressAt(order, if j < i then j else j + 1)
  {
  }

  lemma UnlinkedOk(nodes: map<nat, LinkNode>, order: seq<nat>, i: nat, j: nat)
    requires Linked(nodes, order) && i < |order| && j < |order| - 1 && NULL !in nodes && order[i] in nodes
    ensures NodeOk(Unlinked(nodes, order[i]), Without(order, i), j)
    ensures KeyOf(Unlinked(nodes, order[i]), Without(order, i)[j]) == KeyOf(nodes, order[if j < i then j else j + 1])
  {
    hide Unlinked, Linked, Without;
    UnlinkedNode(nodes, order, i, if j < i then j else j + 1);
    WithoutAt(order, i, j - 1);
    WithoutAt(order, i, j);
    WithoutAt(order, i, j + 1);
  }

  lemma UnlinkLinked(nodes: map<nat, LinkNode>, order: seq<nat>, i: nat)
    requires Linked(nodes, order) && i < |order| && NULL !in nodes && order[i] in nodes
    ensures Linked(Unlinked(nodes, order[i]), Without(order, i))
    ensures KeysOf(Unlinked(nodes, order[i]), Without(order, i)) == Without(KeysOf(nodes, order), i)
  {
    hide Unlinked, NodeOk, KeyOf, Without;
    forall j: nat | j < |order| - 1
      ensures NodeOk(Unlinked(nodes, order[i]), Without(order, i), j)
      ensures KeyOf(Unlinked(nodes, order[i]), Without(order, i)[j]) == KeyOf(nodes, order[if j < i then j else j + 1])
    {
      UnlinkedOk(nodes, order, i, j);
    }
    assert Apart(Without(order, i));
  }

  lemma UnlinkIndexed(eq: Equality, nodes: map<nat, LinkNode>, order: seq<nat>, i: nat, after: map<nat, LinkNode>, contents: map<nat, nat>)
    requires Indexed(eq, nodes, order, contents) && i < |order| && Apart(order)
    requires KeysOf(after, Without(order, i)) == Without(KeysOf(nodes, order), i)
    ensures Indexed(eq, after, Without(order, i), contents - {ClassOf(eq, nodes, order[i])})
  {
    hide KeyOf, Without, Class;
    var rest := Without(order, i);
    var gone := ClassOf(eq, nodes, order[i]);
    forall j: nat | j < |rest|
      ensures ClassOf(eq, after, rest[j]) == ClassOf(eq, nodes, order[if j < i then j else j + 1])
      ensures Finds(contents - {gone}, ClassOf(eq, after, rest[j]), rest[j])
    {
      var k := if j < i then j else j + 1;
      assert KeysOf(after, rest)[j] == Without(KeysOf(nodes, order), i)[j];
      assert Finds(contents, ClassOf(eq, nodes, order[k]), order[k]) && Finds(contents, gone, order[i]);
      assert order[k] != order[i];
    }
    forall k: nat | k in contents && k != gone
      ensures contents[k] in rest && ClassOf(eq, after, contents[k]) == k
    {
      var p: nat :| p < |order| && order[p] == contents[k];
      assert Finds(contents, ClassOf(eq, nodes, order[p]), order[p]) && p != i;
      assert rest[if p < i then p else p - 1] == order[p];
    }
  }

  /** New addresses are not in use. */
  ghost predicate Addresses(nodes: map<nat, LinkNode>, order: seq<nat>, last: nat)
  {
    NULL !in nodes && (forall a :: a in nodes ==> a <= last) && forall i: nat :: i < |order| ==> order[i] <= last
  }

  ghost predicate ListOk(eq: Equality, nodes: map<nat, LinkNode>, order: seq<nat>, contents: map<nat, nat>, list: nat, tail: nat, last: nat)
  {
    && Linked(nodes, order) && Indexed(eq, nodes, order, contents)
    && list == AddressAt(order, 0) && tail == AddressAt(order, |order| - 1)
    && Addresses(nodes, order, last)
  }

  class HashSet {
    const table: HashTable
    var nodes: map<nat, LinkNode>
    var list: nat
    var tail: nat
    /** Addresses handed out so far. */
    var lastAddress: nat
    ghost var order: seq<nat>

    ghost predicate Valid()
      reads this, table, table.table
    {
      table.Valid() && ListOk(table.equals, nodes, order, table.contents, list, tail, lastAddress)
    }

    /** The keys in the set, in the order of their insertion. */
    ghost function Keys(): seq<nat>
      reads this, table, table.table
      requires Valid()
    {
      KeysOf(nodes, order)
    }

    constructor (hash: Hash, equality: Equality, initialCapacity: nat, factor: real)
      requires Lawful(equality, hash)
      requires 0 <= ThresholdFor(initialCapacity, factor) && ThresholdFor(initialCapacity, factor) + 1 < initialCapacity
      ensures Valid() && Keys() == [] && table.equals == equality && fresh(table) && fresh(table.table)
    {
      table := new HashTable(hash, equality, initialCapacity, factor);
      nodes, list, tail, lastAddress := map[], NULL, NULL, 0;
      order := [];
    }

    lemma ContainsExactly(key: nat)
      requires Valid()
      ensures InKeys(table.equals, Keys(), key) <==> table.Of(key) in table.contents
      ensures table.Of(key) in table.contents ==> table.contents[table.Of(key)] != NULL
    {
      hide Class, HashTable.Valid;
      var k := table.Of(key);
      if k in table.contents {
        var i: nat :| i < |order| && order[i] == table.contents[k];
        assert NodeOk(nodes, order, i);
        assert SameKey(table.equals, Keys()[i], key);
      }
      if InKeys(table.equals, Keys(), key) {
        var i: nat :| i < |order| && SameKey(table.equals, Keys()[i], key);
        assert Finds(table.contents, ClassOf(table.equals, nodes, order[i]), order[i]);
      }
    }

    method Contains(key: nat) returns (found: bool)
      requires Valid()
      ensures found <==> InKeys(table.equals, Keys(), key)
    {
      ContainsExactly(key);
      var node := table.Get(key);
      found := node != NULL;
    }

    /** Adds a key at the end; false if an equal one is there already. */
    method Add(key: nat) returns (added: bool)
      requires Valid()
      modifies this, table, table.table
      ensures Valid() && (fresh(table.table) || table.table == old(table.table))
      ensures added <==> !InKeys(table.equals, old(Keys()), key)
      ensures Keys() == if added then old(Keys()) + [key] else old(Keys())
    {
      ContainsExactly(key);
      hide InKeys, ListOk, HashTable.Valid;
      var val := table.Get(key);
      if val != NULL {
        return false;
      }
      Append(key);
      table.Put(key, tail);
      return true;
    }

    /** Links a new node with the key at the end of the list; the table does not know it yet. */
    method Append(key: nat)
      requires Valid() && table.Of(key) !in table.contents
      modifies this
      ensures ListOk(table.equals, nodes, order, table.contents[table.Of(key) := tail], list, tail, lastAddress)
      ensures KeysOf(nodes, order) == KeysOf(old(nodes), old(order)) + [key]
    {
      hide ListOk, Appended, KeysOf, HashTable.Valid, Class;
      AppendOk(table.equals, nodes, order, table.contents, list, tail, lastAddress, key);
      lastAddress := lastAddress + 1;
      order := order + [lastAddress];
      LinkLast(lastAddress, key);
    }

    /** Writes the links of the new last node. */
    method LinkLast(newnode: nat, key: nat)
      requires newnode != NULL && NULL !in nodes && (tail != NULL ==> tail in nodes)
      modifies this`nodes, this`list, this`tail
      ensures nodes == Appended(old(nodes), old(tail), newnode, key)
      ensures tail == newnode && list == if old(tail) == NULL then newnode else old(list)
    {
      if tail != NULL {
        nodes := nodes[tail := nodes[tail].(next := newnode)];
      } else {
        list := newnode;
      }
      nodes := nodes[newnode := LinkNode(key, tail, NULL)];
      tail := newnode;
    }

    /** Takes out the key equal to this one; false if there is none. */
    method Remove(key: nat) returns (removed: bool, ghost i: nat)
      requires Valid()
      modifies this, table, table.table
      ensures Valid() && table.table == old(table.table)
      ensures removed <==> InKeys(table.equals, old(Keys()), key)
      ensures !removed ==> Keys() == old(Keys()) && order == old(order)
      ensures removed ==> i < |old(Keys())| && SameKey(table.equals, old(Keys())[i], key) && Keys() == Without(old(Keys()), i)
      ensures removed ==> old(order)[i] == old(table.contents)[table.Of(key)] && order == Without(old(order), i)
    {
      ContainsExactly(key);
      hide InKeys, ListOk, HashTable.Valid, Without, Class;
      var oldlinknode := table.Get(key);
      if oldlinknode == NULL {
        return false, 0;
      }
      i := Unlink(key, oldlinknode);
      var _ := table.Remove(key);
      return true, i;
    }

    /** Takes the node of a key out of the list; the table still knows it. */
    method Unlink(key: nat, oldlinknode: nat) returns (ghost i: nat)
      requires Valid() && table.Of(key) in table.contents && oldlinknode == table.contents[table.Of(key)]
      modifies this
      ensures ListOk(table.equals, nodes, order, table.contents - {table.Of(key)}, list, tail, lastAddress)
      ensures i < |old(order)| && old(order)[i] == oldlinknode && order == Without(old(order), i)
      ensures SameKey(table.equals, KeyOf(old(nodes), old(order)[i]), key)
      ensures KeysOf(nodes, order) == Without(KeysOf(old(nodes), old(order)), i)
    {
      hide ListOk, Unlinked, Without, KeyOf, KeysOf, HashTable.Valid, Class;
      i := PositionOf(table.equals, nodes, order, table.contents, list, tail, lastAddress, key);
      UnlinkOk(table.equals, nodes, order, table.contents, list, tail, lastAddress, key, i);
      order := Without(order, i);
      UnlinkNode(oldlinknode);
    }

    /** Joins the neighbours of a node and frees it. */
    method UnlinkNode(oldlinknode: nat)
      requires oldlinknode in nodes && NULL !in nodes
      requires nodes[oldlinknode].prev != NULL ==> nodes[oldlinknode].prev in nodes
      requires nodes[oldlinknode].next != NULL ==> nodes[oldlinknode].next in nodes
      modifies this`nodes, this`list, this`tail
      ensures nodes == Unlinked(old(nodes), oldlinknode)
      ensures list == if old(nodes)[oldlinknode].prev == NULL then old(nodes)[oldlinknode].next else old(list)
      ensures tail == if old(nodes)[oldlinknode].next == NULL then old(nodes)[oldlinknode].prev else old(tail)
    {
      var node := nodes[oldlinknode];
      if node.prev == NULL {
        list := node.next;
      } else {
        nodes := nodes[node.prev := nodes[node.prev].(next := node.next)];
      }
      if node.next != NULL {
        nodes := nodes[node.next := nodes[node.next].(prev := node.prev)];
      } else {
        tail := node.prev;
      }
      nodes := nodes - {oldlinknode};
    }
  }

  lemma PositionOf(eq: Equality, nodes: map<nat, LinkNode>, order: seq<nat>, contents: map<nat, nat>, list: nat, tail: nat, last: nat, key: nat)
    returns (i: nat)
    requires ListOk(eq, nodes, order, contents, list, tail, last) && Class(eq, key) in contents
    ensures i < |order| && order[i] == contents[Class(eq, key)] && SameKey(eq, KeyOf(nodes, order[i]), key)
  {
    i :| i < |order| && order[i] == contents[Class(eq, key)];
  }

  lemma AppendOk(eq: Equality, nodes: map<nat, LinkNode>, order: seq<nat>, contents: map<nat, nat>, list: nat, tail: nat, last: nat, key: nat)
    requires ListOk(eq, nodes, order, contents, list, tail, last) && Class(eq, key) !in contents
    ensures NULL !in nodes && (tail != NULL ==> tail in nodes)
    ensures var after := Appended(nodes, tail, last + 1, key);
            && ListOk(eq, after, order + [last + 1], contents[Class(eq, key) := last + 1], if tail == NULL then last + 1 else list, last + 1, last + 1)
            && KeysOf(after, order + [last + 1]) == KeysOf(nodes, order) + [key]
  {
    hide Linked, Indexed, Appended, Addresses;
    NewAddress(nodes, order, last, tail, key);
    AppendLinked(nodes, order, last + 1, key);
    AppendIndexed(eq, nodes, order, last + 1, key, Appended(nodes, tail, last + 1, key), contents);
    EndsAppend(nodes, order, last + 1);
  }

  lemma UnlinkOk(eq: Equality, nodes: map<nat, LinkNode>, order: seq<nat>, contents: map<nat, nat>, list: nat, tail: nat, last: nat, key: nat, i: nat)
    requires ListOk(eq, nodes, order, contents, list, tail, last) && i < |order|
    requires Class(eq, key) in contents && order[i] == contents[Class(eq, key)]
    ensures order[i] in nodes && NULL !in nodes
    ensures var n := nodes[order[i]];
            && (n.prev != NULL ==> n.prev in nodes) && (n.next != NULL ==> n.next in nodes)
            && ListOk(eq, Unlinked(nodes, order[i]), Without(order, i), contents - {Class(eq, key)},
                      if n.prev == NULL then n.next else list, if n.next == NULL then n.prev else tail, last)
    ensures KeysOf(Unlinked(nodes, order[i]), Without(order, i)) == Without(KeysOf(nodes, order), i)
  {
    hide Linked, Indexed, Unlinked, Without, Addresses;
    UnlinkReady(eq, nodes, order, i, contents, last, key);
    UnlinkLinked(nodes, order, i);
    UnlinkIndexed(eq, nodes, order, i, Unlinked(nodes, order[i]), contents);
    UnlinkEnds(nodes, order, i);
    UnlinkAddresses(nodes, order, i, last);
  }

  lemma UnlinkReady(eq: Equality, nodes: map<nat, LinkNode>, order: seq<nat>, i: nat, contents: map<nat, nat>, last: nat, key: nat)
    requires Linked(nodes, order) && Indexed(eq, nodes, order, contents) && Addresses(nodes, order, last) && i < |order|
    requires Class(eq, key) in contents && contents[Class(eq, key)] == order[i]
    ensures order[i] in nodes && NULL !in nodes && Apart(order) && ClassOf(eq, nodes, order[i]) == Class(eq, key)
    ensures nodes[order[i]].prev == AddressAt(order, i - 1) && nodes[order[i]].next == AddressAt(order, i + 1)
    ensures nodes[order[i]].prev != NULL ==> nodes[order[i]].prev in nodes
    ensures nodes[order[i]].next != NULL ==> nodes[order[i]].next in nodes
  {
    assert NodeOk(nodes, order, i);
    assert i > 0 ==> NodeOk(nodes, order, i - 1);
    assert i + 1 < |order| ==> NodeOk(nodes, order, i + 1);
  }

  lemma UnlinkEnds(nodes: map<nat, LinkNode>, order: seq<nat>, i: nat)
    requires i < |order| && Linked(nodes, order)
    ensures var rest := Without(order, i);
            && AddressAt(rest, 0) == (if AddressAt(order, i - 1) == NULL then AddressAt(order, i + 1) else AddressAt(order, 0))
            && AddressAt(rest, |rest| - 1) == (if AddressAt(order, i + 1) == NULL then AddressAt(order, i - 1) else AddressAt(order, |order| - 1))
  {
    WithoutAt(order, i, 0);
    WithoutAt(order, i, |order| - 2);
    assert i > 0 ==> NodeOk(nodes, order, i - 1);
    assert i + 1 < |order| ==> NodeOk(nodes, order, i + 1);
  }

  lemma UnlinkAddresses(nodes: map<nat, LinkNode>, order: seq<nat>, i: nat, last: nat)
    requires Addresses(nodes, order, last) && i < |order| && order[i] in nodes
    ensures Addresses(Unlinked(nodes, order[i]), Without(order, i), last)
  {
  }

  /** The next address is fresh, and stays the largest once it is in use. */
  lemma NewAddress(nodes: map<nat, LinkNode>, order: seq<nat>, last: nat, tail: nat, key: nat)
    requires Addresses(nodes, order, last)
    ensures last + 1 !in order && NULL !in nodes
    ensures Addresses(Appended(nodes, tail, last + 1, key), order + [last + 1], last + 1)
  {
  }

  /** The ends of the list before and after appending. */
  lemma EndsAppend(nodes: map<nat, LinkNode>, order: seq<nat>, n: nat)
    requires Linked(nodes, order)
    ensures AddressAt(order, |order| - 1) != NULL ==> AddressAt(order, |order| - 1) in nodes
    ensures AddressAt(order + [n], |order|) == n
    ensures AddressAt(order + [n], 0) == if AddressAt(order, |order| - 1) == NULL then n else AddressAt(order, 0)
  {
    assert order != [] ==> NodeOk(nodes, order, |order| - 1);
  }

  // ----- Iteration -----

  lemma AtPosition(nodes: map<nat, LinkNode>, order: seq<nat>, i: nat)
    requires Linked(nodes, order) && i < |order|
    ensures order[i] != NULL && order[i] in nodes && nodes[order[i]].next == AddressAt(order, i + 1)
    ensures KeyOf(nodes, order[i]) == nodes[order[i]].key
  {
    assert NodeOk(nodes, order, i);
  }

  class HSIterator {
    const set_: HashSet
    var curr: nat
    var last: nat
    /** How many keys of the set come before the iterator. */
    ghost var position: nat

    ghost predicate Valid()
      reads this, set_, set_.table, set_.table.table
    {
      && set_.Valid() && position <= |set_.order| && curr == AddressAt(set_.order, position)
    }

    /** The last key returned is still in the set. */
    ghost predicate Returned()
      reads this, set_
    {
      0 < position <= |set_.order| && last == set_.order[position - 1]
    }

    /** The keys still to come. */
    ghost function Left(): seq<nat>
      reads this, set_, set_.table, set_.table.table
      requires Valid()
    {
      set_.Keys()[position..]
    }

    constructor (s: HashSet)
      requires s.Valid()
      ensures Valid() && set_ == s && Left() == s.Keys()
    {
      set_ := s;
      curr := s.list;
      last := NULL;
      position := 0;
    }

    method HasNext() returns (more: bool)
      requires Valid()
      ensures more <==> Left() != []
    {
      hide HashTable.Valid, Indexed, Addresses;
      if position < |set_.order| {
        AtPosition(set_.nodes, set_.order, position);
      }
      more := curr != NULL;
    }

    /** The first of the keys still to come. */
    method Next() returns (key: nat)
      requires Valid() && Left() != []
      modifies this
      ensures Valid() && Returned() && position == old(position) + 1
      ensures old(Left()) == [key] + Left()
    {
      hide HashTable.Valid, Indexed, Addresses;
      AtPosition(set_.nodes, set_.order, position);
      key := set_.nodes[curr].key;
      last := curr;
      curr := set_.nodes[curr].next;
      position := position + 1;
    }

    /** Removes the key returned last from the set; what is still to come does not change. */
    method Remove()
      requires Valid() && Returned()
      modifies this, set_, set_.table, set_.table.table
      ensures Valid() && position == old(position) - 1
      ensures Left() == old(Left())
      ensures set_.Keys() == Without(old(set_.Keys()), old(position) - 1)
    {
      hide HashTable.Valid, ListOk, KeysOf, KeyOf, Without;
      ghost var keys, order := set_.Keys(), set_.order;
      LastKey(set_.table.equals, set_.nodes, order, set_.table.contents, set_.list, set_.tail, set_.lastAddress, position - 1);
      var key := set_.nodes[last].key;
      set_.ContainsExactly(key);
      var removed, i := set_.Remove(key);
      assert i == position - 1;
      position := i;
      WithoutSuffix(keys, i);
      WithoutAt(order, i, i);
    }
  }

  /** The key of a position leads back to it, and to no other. */
  lemma LastKey(eq: Equality, nodes: map<nat, LinkNode>, order: seq<nat>, contents: map<nat, nat>, list: nat, tail: nat, last: nat, i: nat)
    requires ListOk(eq, nodes, order, contents, list, tail, last) && i < |order|
    ensures order[i] in nodes && KeyOf(nodes, order[i]) == nodes[order[i]].key
    ensures Finds(contents, Class(eq, nodes[order[i]].key), order[i])
    ensures forall j: nat :: j < |order| && order[j] == order[i] ==> j == i
  {
    AtPosition(nodes, order, i);
    assert Finds(contents, ClassOf(eq, nodes, order[i]), order[i]);
  }

  lemma WithoutSuffix(s: seq<nat>, i: nat)
    requires i < |s|
    ensures Without(s, i)[i..] == s[i + 1..]
  {
  }
}
