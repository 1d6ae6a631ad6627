/** The hash table over its linked nodes. */
module HashTable {
  import opened MachineInts
  import opened HashModel
  import opened HashChains

  class HashTable {
    var buckets: array?<Node?>
    var capacity: nat
    var count: nat

    ghost var table: Table              // what the table holds
    ghost var chains: seq<seq<Node>>    // the nodes reached from each bucket
    ghost var cells: Memory             // the contents of those nodes
    ghost var nodes: set<Node>          // node blocks that malloc handed out and free has not taken back
    ghost var keys: set<Node>           // the same for the key copies, named by their node

    /** The linked structure on its own, apart from the allocator's books. */
    ghost predicate Consistent()
      reads this`buckets, this`capacity, this`count, this`table, this`chains, this`cells, buckets, cells.Keys
    {
      && buckets != null && buckets.Length == |table| == capacity
      && Linked(cells, buckets[..], chains, table)
      && count == Size(table) == |cells.Keys|
      && Stored(cells)
    }

    ghost predicate Valid()
      reads this, buckets, cells.Keys
    {
      Consistent() && nodes == cells.Keys && keys == cells.Keys
    }

    /** `ht_init`; the flag says whether there is memory for the buckets. Nobody looks whether there was. */
    constructor (capacity: nat, bucketsOk: bool)
      ensures this.capacity == capacity && count == 0 && nodes == {} && keys == {}
      ensures bucketsOk ==> Valid() && fresh(buckets) && table == Empty(capacity)
      ensures !bucketsOk ==> buckets == null
    {
      if bucketsOk {
        buckets := new Node?[capacity](_ => null);
      } else {
        buckets := null;
      }
      this.capacity, count := capacity, 0;
      chains, table := seq(capacity, _ => []), Empty(capacity);
      cells, nodes, keys := map[], {}, {};
      new;
      EmptySize(capacity);
    }

    /** `hash_string` with 64-bit `unsigned long`; each character is sign-extended. */
    static method HashString(key: Key) returns (hash: nat)
      ensures hash == Djb2(key)
    {
      hash := 5381;
      for i := 0 to |key|
        invariant hash == Djb2(key[..i])
      {
        assert key[..i + 1][..i] == key[..i];
        DjbStep(hash, key[i]);
        hash := Wrap64(Wrap64(Wrap64(hash * 32) + hash) + Wrap64(key[i]));
      }
      assert key[..|key|] == key;
    }

    method BucketIndex(key: Key) returns (index: nat)
      requires Consistent() && capacity > 0
      ensures |table| > 0 && index == Bucket(Djb2, table, key) == Djb2(key) % capacity
    {
      var hash := HashString(key);
      index := hash % capacity;
    }

    /** `n->next`, of a node that has not been freed. */
    method NextOf(n: Node) returns (next: Node?)
      requires n in nodes
      ensures next == n.next
    {
      next := n.next;
    }

    /** `free` of a node: legal once, and what the node held is gone. */
    method FreeNode(n: Node)
      requires n in nodes
      modifies this`nodes, n`value, n`next
      ensures nodes == old(nodes) - {n}
    {
      nodes := nodes - {n};
      n.value, n.next := *, *;
    }

    /** `free(n->key)`: legal once, and only while the node that says where the copy is has not been freed. */
    method FreeKey(n: Node)
      requires n in keys && n in nodes
      modifies this`keys, n`key
      ensures keys == old(keys) - {n}
    {
      keys := keys - {n};
      n.key := *;
    }

    /** The key copy first, then the node that points to it. */
    method FreeEntry(n: Node)
      requires n in keys && n in nodes
      modifies this`nodes, this`keys, n
      ensures nodes == old(nodes) - {n} && keys == old(keys) - {n}
    {
      FreeKey(n);
      FreeNode(n);
    }

    /** The two allocations of an insertion; when the second fails, the first is undone. */
    method Allocate(nodeOk: bool, keyOk: bool) returns (node: Node?)
      modifies this`nodes, this`keys
      ensures node != null <==> nodeOk && keyOk
      ensures node == null ==> nodes == old(nodes) && keys == old(keys)
      ensures node != null ==> fresh(node) && nodes == old(nodes) + {node} && keys == old(keys) + {node}
    {
      if !nodeOk { return null; }
      node := new Node(NULL);
      nodes := nodes + {node};
      if !keyOk {
        FreeNode(node);
        return null;
      }
      keys := keys + {node};
    }

    /** The walk all three operations make: the node with the key, and the one before it. */
    method Walk(index: nat, key: Key) returns (prev: Node?, n: Node?, ghost j: nat)
      requires Consistent() && index < |table|
      ensures index < |chains| && |chains[index]| == |table[index]|
      ensures j == Find(table[index], key) && n == NodeAt(chains[index], Find(table[index], key))
      ensures prev == if j == 0 then null else NodeAt(chains[index], j - 1)
      ensures (n != null <==> Has(table[index], key)) && (n != null ==> n in cells && n.key == key)
      ensures prev != null ==> prev in cells && prev != n
    {
      hide Linked, Size, WellFormed;
      LinkedAt(cells, buckets[..], chains, table, index);
      ghost var c, es := chains[index], table[index];
      prev, n, j := null, buckets[index], 0;
      while n != null
        invariant j <= |c| && n == NodeAt(c, j)
        invariant prev == if j == 0 then null else NodeAt(c, j - 1)
        invariant prev != null ==> prev in cells && prev.key != key
        invariant forall i :: 0 <= i < j ==> es[i].key != key
        decreases |c| - j
      {
        assert NodeOk(cells, c, es, j);
        if n.key == key {
          FindFrom(es, key, j);
          return;
        }
        prev, n := n, n.next;
        j := j + 1;
      }
      FindMissing(es, key);
    }

    /** `ht_get`. */
    method Get(key: Key) returns (value: Value)
      requires Valid() && capacity > 0
      ensures TableStep(Djb2, table, Operation.Get(key)) == (table, Pointer(value))
    {
      var index := BucketIndex(key);
      var prev, n; ghost var j;
      prev, n, j := Walk(index, key);
      LinkedAt(cells, buckets[..], chains, table, index);
      if n == null { return NULL; }
      assert NodeOk(cells, chains[index], table[index], j);
      return n.value;
    }

    /** Keeping the count and the specification in step with the nodes. */
    method Record(newCount: nat, ghost cells': Memory, ghost chains': seq<seq<Node>>, ghost table': Table)
      requires buckets != null && buckets.Length == |table'| == capacity && Stored(cells')
      requires Linked(cells', buckets[..], chains', table') && newCount == Size(table') == |cells'.Keys|
      modifies this`cells, this`chains, this`table, this`count
      ensures Consistent() && cells == cells' && chains == chains' && table == table'
    {
      hide Linked, Size;
      count := newCount;
      cells, chains, table := cells', chains', table';
    }

    /** The key is there: only its value changes. */
    method Overwrite(n: Node, index: nat, key: Key, value: Value)
      requires Consistent() && index < |chains| && index < |table| && index == Bucket(Djb2, table, key)
      requires n in cells && n == NodeAt(chains[index], Find(table[index], key)) && Has(table[index], key)
      modifies this`cells, this`chains, this`table, this`count, n`value
      ensures Consistent() && cells.Keys == old(cells.Keys)
      ensures table == old(table)[index := Put(old(table)[index], key, value)]
    {
      hide Linked, Find, Has, Put, Drop, Bucket, WellFormed, Size, Djb2, Except, Unlinked;
      LinkedAt(cells, buckets[..], chains, table, index);
      ghost var table' := table[index := Put(table[index], key, value)];
      LinkValue(cells, buckets[..], chains, table, key, value, index, Find(table[index], key), table');
      ghost var cell := cells[n].(value := value);
      ghost var cells' := cells[n := cell];
      StoredExcept(cells, {n});
      ExceptPut(cells, n, cell);
      PutKeys(cells, n, cell);
      n.value := value;
      StoredAgain(cells, {n}, cells');
      Record(count, cells', chains, table');
    }

    /** `node` becomes the head of its chain. */
    method LinkNode(node: Node, index: nat)
      requires buckets != null && index < buckets.Length
      modifies buckets, node`next
      ensures node.next == old(buckets[index]) && buckets[..] == old(buckets[..])[index := node]
    {
      node.next := buckets[index];
      buckets[index] := node;
    }

    /** The key is not there: a filled-in node becomes the first of its chain. */
    method AddNode(node: Node, index: nat, key: Key, value: Value)
      requires Consistent() && index < |chains| && index < |table| && index == Bucket(Djb2, table, key)
      requires !Has(table[index], key) && node !in cells && node.key == key && node.value == value
      modifies this`cells, this`chains, this`table, this`count, buckets, node`next
      ensures Consistent() && cells.Keys == old(cells.Keys) + {node}
      ensures table == old(table)[index := Put(old(table)[index], key, value)]
    {
      hide Linked, Find, Has, Put, Drop, Bucket, WellFormed, Size, Djb2, Except, Unlinked, Stored;
      LinkedAt(cells, buckets[..], chains, table, index);
      ghost var table' := table[index := Put(table[index], key, value)];
      LinkFirst(cells, buckets[..], chains, table, node, key, value, index, table');
      ghost var heads := buckets[..];
      ghost var cell := Cell(key, value, heads[index]);
      ghost var cells' := cells[node := cell];
      StoredExcept(cells, {node});
      ExceptPut(cells, node, cell);
      PutKeys(cells, node, cell);
      LinkNode(node, index);
      StoredAgain(cells, {node}, cells');
      Record(count + 1, cells', chains[index := [node] + chains[index]], table');
    }

    /** Whatever led to `n` now leads to what follows it. */
    method Redirect(prev: Node?, n: Node, index: nat)
      requires buckets != null && index < buckets.Length
      modifies buckets, if prev == null then {} else {prev}
      ensures prev == null ==> buckets[..] == old(buckets[..])[index := old(n.next)]
      ensures prev != null ==> buckets[..] == old(buckets[..]) && prev.next == old(n.next)
      ensures prev != null ==> prev.key == old(prev.key) && prev.value == old(prev.value)
    {
      if prev == null {
        buckets[index] := n.next;
      } else {
        prev.next := n.next;
      }
    }

    /** The key is there: its node is taken out of the chain. */
    method Unlink(prev: Node?, n: Node, index: nat, key: Key, ghost j: nat)
      requires Consistent() && index < |chains| && index < |table| && index == Bucket(Djb2, table, key)
      requires Has(table[index], key) && j == Find(table[index], key) && n == NodeAt(chains[index], j)
      requires prev == if j == 0 then null else NodeAt(chains[index], j - 1)
      requires n in cells && (prev != null ==> prev in cells && prev != n)
      modifies this`cells, this`chains, this`table, this`count, buckets, cells.Keys
      ensures Consistent() && cells.Keys == old(cells.Keys) - {n}
      ensures table == old(table)[index := Drop(old(table)[index], key)]
    {
      hide Linked, Find, Has, Put, Drop, Bucket, WellFormed, Size, Djb2, Except, Unlinked, Stored, NodeOk;
      CellOf(cells, n);
      if prev != null { CellOf(cells, prev); }
      ghost var c := chains[index];
      LinkedAt(cells, buckets[..], chains, table, index);
      ghost var table' := table[index := Drop(table[index], key)];
      LinkRemove(cells, buckets[..], chains, table, key, index, j, c, table');
      ghost var heads := buckets[..];
      ghost var touched := {n, c[if j == 0 then 0 else j - 1]};
      ghost var cells' := Unlinked(cells, c, j);
      StoredExcept(cells, touched);
      ExceptUnlinked(cells, c, j, touched);
      UnlinkedCells(cells, c, j);
      Redirect(prev, n, index);
      StoredAgain(cells, touched, cells');
      Record(count - 1, cells', chains[index := c[..j] + c[j + 1..]], table');
    }

    /** `ht_insert`; the flags say whether each of its two allocations succeeds. */
    method Insert(key: Key, value: Value, nodeOk: bool, keyOk: bool) returns (ok: bool)
      requires Valid() && capacity > 0
      modifies this, buckets, nodes
      ensures Valid() && buckets == old(buckets) && fresh(nodes - old(nodes)) && old(nodes) <= nodes
      ensures (table, Success(ok)) == TableStep(Djb2, old(table), Operation.Insert(key, value, nodeOk, keyOk))
      ensures !ok ==> nodes == old(nodes) && cells == old(cells)
    {
      hide Consistent, Find, Has, Put, Bucket, Djb2;
      var index := BucketIndex(key);
      var prev, n; ghost var j;
      prev, n, j := Walk(index, key);
      if n != null {
        Overwrite(n, index, key, value);
        return true;
      }
      var node := Allocate(nodeOk, keyOk);
      if node == null { return false; }
      node.key := key;
      node.value := value;
      AddNode(node, index, key, value);
      return true;
    }

    /** `ht_remove`. */
    method Remove(key: Key) returns (ok: bool)
      requires Valid() && capacity > 0
      modifies this, buckets, nodes
      ensures Valid() && buckets == old(buckets) && nodes <= old(nodes)
      ensures (table, Success(ok)) == TableStep(Djb2, old(table), Operation.Remove(key))
      ensures |nodes| == |old(nodes)| - (if ok then 1 else 0)
    {
      hide Consistent, Find, Has, Drop, Bucket, Djb2;
      var index := BucketIndex(key);
      var prev, n; ghost var j;
      prev, n, j := Walk(index, key);
      if n == null {
        NothingDropped(table, index, key);
        return false;
      }
      assert n in nodes && n in keys;
      Unlink(prev, n, index, key, j);
      FreeEntry(n);
      return true;
    }

    method Perform(op: Operation) returns (answer: Answer)
      requires Valid() && capacity > 0
      modifies this, buckets, nodes
      ensures Valid() && buckets == old(buckets) && capacity == old(capacity) && fresh(nodes - old(nodes))
      ensures (table, answer) == TableStep(Djb2, old(table), op)
    {
      match op
      case Insert(key, value, nodeOk, keyOk) =>
        var ok := Insert(key, value, nodeOk, keyOk);
        answer := Success(ok);
      case Get(key) =>
        var value := Get(key);
        answer := Pointer(value);
      case Remove(key) =>
        var ok := Remove(key);
        answer := Success(ok);
    }

    /** Any sequence of operations answers as it does on a map. */
    method Replay(ops: seq<Operation>) returns (answers: seq<Answer>)
      requires Valid() && capacity > 0
      modifies this, buckets, nodes
      ensures Valid() && buckets == old(buckets) && capacity == old(capacity) && fresh(nodes - old(nodes))
      ensures (table, answers) == TableRun(Djb2, old(table), ops)
      ensures forall m :: StandsFor(Djb2, old(table), m) ==>
                StandsFor(Djb2, table, MapRun(m, ops).0) && answers == MapRun(m, ops).1
      decreases |ops|
    {
      hide Consistent, Bucket, Djb2, TableStep, MapStep, StandsFor, MapRun;
      ghost var t := table;
      if ops == [] {
        answers := [];
      } else {
        var first := Perform(ops[0]);
        var rest := Replay(ops[1..]);
        answers := [first] + rest;
      }
      forall m | StandsFor(Djb2, t, m) { RunRefines(Djb2, t, m, ops); }
    }

    /** What `ht_destroy` leaves, or `ht_init` with capacity 0 and no memory. */
    ghost predicate Destroyed()
      reads this
    {
      buckets == null && capacity == 0 && nodes == {} && keys == {}
    }

    /** `ht_destroy`: every node and every key copy is freed, once, and read only before that. Destroying a
        table again does nothing. */
    method Destroy()
      requires Valid() || Destroyed()
      modifies this, buckets, nodes
      ensures Destroyed() && count == 0
    {
      hide Linked, From, Bucket, Djb2, Size;
      ghost var heads := if buckets == null then [] else buckets[..];
      if buckets != null { FromEnds(cells, heads, chains, table); }
      for i := 0 to capacity
        invariant buckets == old(buckets) && capacity == old(capacity)
        invariant table == old(table) && chains == old(chains) && cells == old(cells)
        invariant buckets != null ==> buckets[..] == heads && capacity == |table| && Linked(cells, heads, chains, table)
        invariant nodes == keys == if buckets == null then {} else From(cells, table, i)
        invariant nodes <= cells.Keys || buckets == null
        invariant forall n :: n in nodes ==> n in cells && cells[n] == Cell(n.key, n.value, n.next)
      {
        DestroyChain(i, heads);
      }
      buckets, capacity, count := null, 0, 0;
    }

    method DestroyChain(i: nat, ghost heads: seq<Node?>)
      requires buckets != null && i < buckets.Length == |table| && buckets[..] == heads
      requires Linked(cells, heads, chains, table)
      requires nodes == keys == From(cells, table, i)
      requires forall n :: n in nodes ==> cells[n] == Cell(n.key, n.value, n.next)
      modifies this`nodes, this`keys, nodes
      ensures nodes == keys == From(cells, table, i + 1)
      ensures forall n :: n in nodes ==> cells[n] == Cell(n.key, n.value, n.next)
    {
      hide Linked, From, Remaining, Bucket, Djb2;
      LinkedAt(cells, heads, chains, table, i);
      ghost var c := chains[i];
      ghost var j := 0;
      RemainingEnds(cells, heads, chains, table, i);
      var n := buckets[i];
      while n != null
        invariant j <= |c| && n == NodeAt(c, j)
        invariant nodes == keys == Remaining(cells, chains, table, i, j) && nodes <= old(nodes)
        invariant forall m :: m in nodes ==> cells[m] == Cell(m.key, m.value, m.next)
        decreases |c| - j
      {
        assert NodeOk(cells, c, table[i], j);
        RemainingStep(cells, heads, chains, table, i, j);
        var next := NextOf(n);
        FreeEntry(n);
        n := next;
        j := j + 1;
      }
    }
  }

  lemma NothingDropped(t: Table, b: nat, key: Key)
    requires b < |t| && !Has(t[b], key)
    ensures t[b := Drop(t[b], key)] == t
  {
  }

  lemma DjbStep(hash: nat, c: Char)
    requires hash < TWO_TO_THE_64
    ensures Wrap64(Wrap64(Wrap64(hash * 32) + hash) + Wrap64(c)) == (33 * hash + c) % TWO_TO_THE_64
  {
    WrapSum(hash * 32, hash);
    WrapSum(33 * hash, c);
  }

  lemma WrapSum(a: int, b: int)
    ensures Wrap64(Wrap64(a) + b) == Wrap64(a + b) == Wrap64(Wrap64(a) + Wrap64(b))
  {
    var p, q := a / TWO_TO_THE_64, b / TWO_TO_THE_64;
    assert Wrap64(a) == a - p * TWO_TO_THE_64 && Wrap64(b) == b - q * TWO_TO_THE_64;
    WrapMultiple(Wrap64(a) + b, p);
    WrapMultiple(Wrap64(a) + Wrap64(b), p + q);
  }

  lemma WrapMultiple(x: int, k: int)
    ensures Wrap64(x + k * TWO_TO_THE_64) == Wrap64(x)
  {
    var r := x / TWO_TO_THE_64;
    assert x + k * TWO_TO_THE_64 == (r + k) * TWO_TO_THE_64 + Wrap64(x);
  }

  lemma FindFrom(es: Chain, key: Key, j: nat)
    requires j < |es| && es[j].key == key && forall i :: 0 <= i < j ==> es[i].key != key
    ensures Find(es, key) == j
  {
  }
}
