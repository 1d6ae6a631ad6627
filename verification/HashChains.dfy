/** How linked nodes hold a table. */
module HashChains {
  import opened HashModel

  /** A `hash_node_t`; the duplicated key is part of it here, but allocated and freed separately. */
  class Node {
    var key: Key
    var value: Value
    var next: Node?

    constructor (value: Value)
      ensures next == null
    {
      this.key, this.value, this.next := [], value, null;
    }
  }

  /** The contents of a node. */
  datatype Cell = Cell(key: Key, value: Value, next: Node?)

  type Memory = map<Node, Cell>

  /** The nodes hold what the memory says. */
  ghost predicate Stored(cells: Memory)
    reads cells.Keys
  {
    forall n :: n in cells ==> cells[n] == Cell(n.key, n.value, n.next)
  }

  /** The part of the memory away from some nodes. */
  function Except(cells: Memory, touched: set<Node>): Memory { cells - touched }

  lemma CellOf(cells: Memory, n: Node)
    requires Stored(cells) && n in cells
    ensures cells[n] == Cell(n.key, n.value, n.next)
  {
  }

  lemma StoredExcept(cells: Memory, touched: set<Node>)
    requires Stored(cells)
    ensures Stored(Except(cells, touched)) && Except(cells, touched).Keys == cells.Keys - touched
  {
  }

  lemma ExceptPut(cells: Memory, n: Node, cell: Cell)
    ensures Except(cells[n := cell], {n}) == Except(cells, {n})
  {
  }

  lemma PutKeys(cells: Memory, n: Node, cell: Cell)
    ensures cells[n := cell].Keys == cells.Keys + {n}
    ensures |cells[n := cell].Keys| == |cells.Keys| + if n in cells then 0 else 1
  {
    assert n in cells ==> cells.Keys + {n} == cells.Keys;
  }

  /** Nodes that were touched are looked at again, the others keep their place in the memory. */
  lemma StoredAgain(cells: Memory, touched: set<Node>, cells': Memory)
    requires Stored(Except(cells, touched)) && Except(cells', touched) == Except(cells, touched)
    requires forall n :: n in touched && n in cells' ==> cells'[n] == Cell(n.key, n.value, n.next)
    ensures Stored(cells')
  {
  }

  function NodeAt(c: seq<Node>, j: nat): Node? {
    if j < |c| then c[j] else null
  }

  /** Node `j` of chain `c` holds entry `j` of `es` and links to the next one. */
  ghost predicate NodeOk(cells: Memory, c: seq<Node>, es: Chain, j: nat)
    requires j < |c| == |es|
  {
    c[j] in cells && cells[c[j]] == Cell(es[j].key, es[j].value, NodeAt(c, j + 1))
  }

  ghost predicate ChainOk(cells: Memory, head: Node?, c: seq<Node>, es: Chain) {
    && |c| == |es|
    && head == NodeAt(c, 0)
    && (forall j :: 0 <= j < |c| ==> NodeOk(cells, c, es, j))
  }

  /** From the heads the nodes spell out the table, and no node is left over. */
  ghost predicate Linked(cells: Memory, heads: seq<Node?>, chains: seq<seq<Node>>, t: Table) {
    && WellFormed(Djb2, t)
    && |heads| == |chains| == |t|
    && (forall b :: 0 <= b < |t| ==> ChainOk(cells, heads[b], chains[b], t[b]))
    && (forall n :: n in cells ==> |t| > 0 && n in chains[Bucket(Djb2, t, cells[n].key)])
  }

  lemma LinkedAt(cells: Memory, heads: seq<Node?>, chains: seq<seq<Node>>, t: Table, b: nat)
    requires Linked(cells, heads, chains, t) && b < |t|
    ensures WellFormed(Djb2, t)
    ensures |heads| == |chains| == |t| && |chains[b]| == |t[b]| && heads[b] == NodeAt(chains[b], 0)
    ensures forall j :: 0 <= j < |chains[b]| ==> NodeOk(cells, chains[b], t[b], j)
  {
  }

  /** A node's key tells which chain it is in, so chains share no node and none occurs twice. */
  lemma NodePlace(cells: Memory, heads: seq<Node?>, chains: seq<seq<Node>>, t: Table, b: nat, i: nat, b': nat, j: nat)
    requires Linked(cells, heads, chains, t)
    requires b < |t| && i < |chains[b]| && b' < |t| && j < |chains[b']| && chains[b][i] == chains[b'][j]
    ensures b == b' && i == j
  {
    hide Bucket;
    assert ChainOk(cells, heads[b], chains[b], t[b]) && ChainOk(cells, heads[b'], chains[b'], t[b']);
    assert NodeOk(cells, chains[b], t[b], i) && NodeOk(cells, chains[b'], t[b'], j);
    assert Bucket(Djb2, t, t[b][i].key) == b && Bucket(Djb2, t, t[b'][j].key) == b';
  }

  /** A chain whose nodes keep their contents stays a chain. */
  lemma SameCells(cells: Memory, cells': Memory, head: Node?, c: seq<Node>, es: Chain)
    requires ChainOk(cells, head, c, es)
    requires forall k :: 0 <= k < |c| && c[k] in cells ==> c[k] in cells' && cells'[c[k]] == cells[c[k]]
    ensures ChainOk(cells', head, c, es)
  {
    forall k | 0 <= k < |c| ensures NodeOk(cells', c, es, k) {
      assert NodeOk(cells, c, es, k);
    }
  }

  lemma LongerChain(cells: Memory, head: Node?, c: seq<Node>, es: Chain, n: Node, e: Entry)
    requires ChainOk(cells, head, c, es) && n !in cells
    ensures ChainOk(cells[n := Cell(e.key, e.value, head)], n, [n] + c, [e] + es)
  {
    var cells', c', es' := cells[n := Cell(e.key, e.value, head)], [n] + c, [e] + es;
    forall j | 0 <= j < |c'| ensures NodeOk(cells', c', es', j) {
      if j > 0 { assert NodeOk(cells, c, es, j - 1); }
    }
  }

  lemma LinkAtFront(cells: Memory, heads: seq<Node?>, chains: seq<seq<Node>>, t: Table, b: nat, n: Node, e: Entry,
                    t': Table)
    requires Linked(cells, heads, chains, t) && n !in cells && b < |t| && Bucket(Djb2, t, e.key) == b
    requires t' == t[b := [e] + t[b]] && WellFormed(Djb2, t')
    ensures Linked(cells[n := Cell(e.key, e.value, heads[b])], heads[b := n], chains[b := [n] + chains[b]], t')
  {
    hide WellFormed, Djb2, NodeOk;
    var cells' := cells[n := Cell(e.key, e.value, heads[b])];
    var c' := [n] + chains[b];
    LongerChain(cells, heads[b], chains[b], t[b], n, e);
    forall i | 0 <= i < |t| && i != b ensures ChainOk(cells', heads[i], chains[i], t[i]) {
      SameCells(cells, cells', heads[i], chains[i], t[i]);
    }
    forall m | m in cells' ensures m in chains[b := c'][Bucket(Djb2, t', cells'[m].key)] {
      if m == n { assert c'[0] == n; }
    }
  }

  /** A new node in front of its chain `b`, for a key that is not there. */
  lemma LinkFirst(cells: Memory, heads: seq<Node?>, chains: seq<seq<Node>>, t: Table, n: Node, key: Key, value: Value,
                  b: nat, t': Table)
    requires |t| > 0 && Linked(cells, heads, chains, t) && n !in cells
    requires b == Bucket(Djb2, t, key) && !Has(t[b], key) && t' == t[b := Put(t[b], key, value)]
    ensures b < |heads| == |chains| && Size(t') == Size(t) + 1
    ensures Linked(cells[n := Cell(key, value, heads[b])], heads[b := n], chains[b := [n] + chains[b]], t')
  {
    hide Linked;
    LinkedAt(cells, heads, chains, t, b);
    FirstStep(t, key, value, b, t');
    LinkAtFront(cells, heads, chains, t, b, n, Entry(key, value), t');
  }

  lemma FirstStep(t: Table, key: Key, value: Value, b: nat, t': Table)
    requires |t| > 0 && WellFormed(Djb2, t)
    requires b == Bucket(Djb2, t, key) && !Has(t[b], key) && t' == t[b := Put(t[b], key, value)]
    ensures t' == t[b := [Entry(key, value)] + t[b]] && WellFormed(Djb2, t') && Size(t') == Size(t) + 1
  {
    hide WellFormed, Bucket, Djb2, Find, Size;
    StepKeepsWellFormed(Djb2, t, Insert(key, value, true, true));
  }

  lemma LinkValueAt(cells: Memory, heads: seq<Node?>, chains: seq<seq<Node>>, t: Table, b: nat, j: nat, value: Value,
                    t': Table)
    requires Linked(cells, heads, chains, t) && b < |t| && j < |t[b]| == |chains[b]| && chains[b][j] in cells
    requires t' == t[b := t[b][j := Entry(t[b][j].key, value)]] && WellFormed(Djb2, t')
    ensures Linked(cells[chains[b][j] := cells[chains[b][j]].(value := value)], heads, chains, t')
  {
    hide WellFormed, Djb2;
    var n := chains[b][j];
    var cells' := cells[n := cells[n].(value := value)];
    forall i | 0 <= i < |t| ensures ChainOk(cells', heads[i], chains[i], t'[i]) {
      assert ChainOk(cells, heads[i], chains[i], t[i]);
      forall k | 0 <= k < |chains[i]| ensures NodeOk(cells', chains[i], t'[i], k) {
        assert NodeOk(cells, chains[i], t[i], k);
        if chains[i][k] == n { NodePlace(cells, heads, chains, t, i, k, b, j); }
      }
    }
  }

  /** A new value in the node `j` of chain `b` that has the key. */
  lemma LinkValue(cells: Memory, heads: seq<Node?>, chains: seq<seq<Node>>, t: Table, key: Key, value: Value,
                  b: nat, j: nat, t': Table)
    requires |t| > 0 && Linked(cells, heads, chains, t)
    requires b == Bucket(Djb2, t, key) && Has(t[b], key) && j == Find(t[b], key) && t' == t[b := Put(t[b], key, value)]
    ensures b < |chains| && j < |chains[b]| && chains[b][j] in cells && Size(t') == Size(t)
    ensures Linked(cells[chains[b][j] := cells[chains[b][j]].(value := value)], heads, chains, t')
  {
    hide Linked;
    LinkedAt(cells, heads, chains, t, b);
    ValueStep(t, key, value, b, j, t');
    assert NodeOk(cells, chains[b], t[b], j);
    LinkValueAt(cells, heads, chains, t, b, j, value, t');
  }

  lemma ValueStep(t: Table, key: Key, value: Value, b: nat, j: nat, t': Table)
    requires |t| > 0 && WellFormed(Djb2, t)
    requires b == Bucket(Djb2, t, key) && Has(t[b], key) && j == Find(t[b], key) && t' == t[b := Put(t[b], key, value)]
    ensures j < |t[b]| && t' == t[b := t[b][j := Entry(t[b][j].key, value)]]
    ensures WellFormed(Djb2, t') && Size(t') == Size(t)
  {
    hide WellFormed, Bucket, Djb2, Find, Size;
    StepKeepsWellFormed(Djb2, t, Insert(key, value, true, true));
  }

  /** What `ht_remove` leaves of a chain, and of the memory, when node `j` is unlinked. */
  function Unlinked(cells: Memory, c: seq<Node>, j: nat): Memory
    requires j < |c| && c[j] in cells && (j > 0 ==> c[j - 1] in cells)
  {
    (if j == 0 then cells else cells[c[j - 1] := cells[c[j - 1]].(next := cells[c[j]].next)]) - {c[j]}
  }

  lemma ExceptUnlinked(cells: Memory, c: seq<Node>, j: nat, touched: set<Node>)
    requires j < |c| && c[j] in cells && (j > 0 ==> c[j - 1] in cells)
    requires c[j] in touched && (j > 0 ==> c[j - 1] in touched)
    ensures Except(Unlinked(cells, c, j), touched) == Except(cells, touched)
    ensures Unlinked(cells, c, j).Keys == cells.Keys - {c[j]}
    ensures |Unlinked(cells, c, j).Keys| == |cells.Keys| - 1
  {
    assert Unlinked(cells, c, j).Keys == cells.Keys - {c[j]};
  }

  lemma UnlinkedCells(cells: Memory, c: seq<Node>, j: nat)
    requires j < |c| && c[j] in cells && (j > 0 ==> c[j - 1] in cells && c[j - 1] != c[j])
    ensures c[j] !in Unlinked(cells, c, j)
    ensures j > 0 ==> c[j - 1] in Unlinked(cells, c, j)
                      && Unlinked(cells, c, j)[c[j - 1]] == cells[c[j - 1]].(next := cells[c[j]].next)
  {
  }

  /** The chain the node is taken from. */
  lemma ShorterChain(cells: Memory, head: Node?, c: seq<Node>, es: Chain, j: nat)
    requires ChainOk(cells, head, c, es) && j < |c|
    requires forall i, k :: 0 <= i < k < |c| ==> c[i] != c[k]
    ensures c[j] in cells && (j > 0 ==> c[j - 1] in cells)
    ensures ChainOk(Unlinked(cells, c, j), if j == 0 then cells[c[j]].next else head,
                    c[..j] + c[j + 1..], es[..j] + es[j + 1..])
  {
    assert NodeOk(cells, c, es, j) && (j > 0 ==> NodeOk(cells, c, es, j - 1));
    var cells', c', es' := Unlinked(cells, c, j), c[..j] + c[j + 1..], es[..j] + es[j + 1..];
    forall k | 0 <= k < |c'| ensures NodeOk(cells', c', es', k) {
      var k' := if k < j then k else k + 1;
      assert NodeOk(cells, c, es, k') && c'[k] == c[k'] && es'[k] == es[k'];
      assert NodeAt(c', k + 1) == if k' + 1 == j then NodeAt(c, j + 1) else NodeAt(c, k' + 1);
    }
  }

  lemma ChainsApart(cells: Memory, heads: seq<Node?>, chains: seq<seq<Node>>, t: Table, b: nat)
    requires Linked(cells, heads, chains, t) && b < |t|
    ensures forall i, k :: 0 <= i < k < |chains[b]| ==> chains[b][i] != chains[b][k]
    ensures forall b', i, k :: 0 <= b' < |t| && b' != b && 0 <= i < |chains[b]| && 0 <= k < |chains[b']| ==>
              chains[b'][k] != chains[b][i]
  {
    forall i, k | 0 <= i < k < |chains[b]| ensures chains[b][i] != chains[b][k] {
      if chains[b][i] == chains[b][k] { NodePlace(cells, heads, chains, t, b, i, b, k); }
    }
    forall b', i, k | 0 <= b' < |t| && b' != b && 0 <= i < |chains[b]| && 0 <= k < |chains[b']|
      ensures chains[b'][k] != chains[b][i]
    {
      if chains[b'][k] == chains[b][i] { NodePlace(cells, heads, chains, t, b', k, b, i); }
    }
  }

  lemma NoneLeftOver(cells: Memory, chains: seq<seq<Node>>, t: Table, b: nat, j: nat, es: Chain)
    requires |t| > 0 && |chains| == |t| && b < |t| && j < |chains[b]|
    requires chains[b][j] in cells && (j > 0 ==> chains[b][j - 1] in cells)
    requires forall n :: n in cells ==> n in chains[Bucket(Djb2, t, cells[n].key)]
    ensures var cells', chains' := Unlinked(cells, chains[b], j), chains[b := chains[b][..j] + chains[b][j + 1..]];
            forall n :: n in cells' ==> n in chains'[Bucket(Djb2, t[b := es], cells'[n].key)]
  {
  }

  lemma OthersKept(cells: Memory, heads: seq<Node?>, chains: seq<seq<Node>>, t: Table, b: nat, j: nat)
    requires Linked(cells, heads, chains, t) && b < |t| && j < |chains[b]|
    requires chains[b][j] in cells && (j > 0 ==> chains[b][j - 1] in cells)
    ensures forall i :: 0 <= i < |t| && i != b ==> ChainOk(Unlinked(cells, chains[b], j), heads[i], chains[i], t[i])
  {
    ChainsApart(cells, heads, chains, t, b);
    forall i | 0 <= i < |t| && i != b ensures ChainOk(Unlinked(cells, chains[b], j), heads[i], chains[i], t[i]) {
      SameCells(cells, Unlinked(cells, chains[b], j), heads[i], chains[i], t[i]);
    }
  }

  lemma UnlinkAt(cells: Memory, heads: seq<Node?>, chains: seq<seq<Node>>, t: Table, b: nat, j: nat, t': Table)
    requires Linked(cells, heads, chains, t) && b < |t| && j < |chains[b]| && |t[b]| == |chains[b]|
    requires t' == t[b := t[b][..j] + t[b][j + 1..]] && WellFormed(Djb2, t')
    ensures chains[b][j] in cells && (j > 0 ==> chains[b][j - 1] in cells)
    ensures var c := chains[b];
            Linked(Unlinked(cells, c, j), if j == 0 then heads[b := cells[c[j]].next] else heads,
                   chains[b := c[..j] + c[j + 1..]], t')
  {
    hide WellFormed, Djb2, Bucket, NodeOk;
    var c := chains[b];
    ChainsApart(cells, heads, chains, t, b);
    ShorterChain(cells, heads[b], c, t[b], j);
    OthersKept(cells, heads, chains, t, b, j);
    NoneLeftOver(cells, chains, t, b, j, t[b][..j] + t[b][j + 1..]);
  }

  /** The node `j` of chain `b`, which has the key, taken out. */
  lemma LinkRemove(cells: Memory, heads: seq<Node?>, chains: seq<seq<Node>>, t: Table, key: Key,
                   b: nat, j: nat, c: seq<Node>, t': Table)
    requires |t| > 0 && Linked(cells, heads, chains, t)
    requires b == Bucket(Djb2, t, key) && Has(t[b], key) && j == Find(t[b], key) && t' == t[b := Drop(t[b], key)]
    requires b < |chains| && c == chains[b]
    ensures j < |c| && c[j] in cells && (j > 0 ==> c[j - 1] in cells) && Size(t') == Size(t) - 1
    ensures Linked(Unlinked(cells, c, j), if j == 0 then heads[b := cells[c[j]].next] else heads,
                   chains[b := c[..j] + c[j + 1..]], t')
  {
    hide Linked, Unlinked;
    LinkedAt(cells, heads, chains, t, b);
    RemoveStep(t, key, b, j, t');
    UnlinkAt(cells, heads, chains, t, b, j, t');
  }

  lemma RemoveStep(t: Table, key: Key, b: nat, j: nat, t': Table)
    requires |t| > 0 && WellFormed(Djb2, t)
    requires b == Bucket(Djb2, t, key) && Has(t[b], key) && j == Find(t[b], key) && t' == t[b := Drop(t[b], key)]
    ensures j < |t[b]| && t' == t[b := t[b][..j] + t[b][j + 1..]]
    ensures WellFormed(Djb2, t') && Size(t') == Size(t) - 1
  {
    hide WellFormed, Bucket, Djb2, Find, Size;
    StepKeepsWellFormed(Djb2, t, Remove(key));
  }

  // ---------------------------------------------------------------- freeing everything

  /** The nodes of buckets `b` and above. */
  ghost function From(cells: Memory, t: Table, b: nat): (r: set<Node>)
    ensures r <= cells.Keys
  {
    set n | n in cells && |t| > 0 && Bucket(Djb2, t, cells[n].key) >= b
  }

  /** Nodes still to be freed when buckets below `b` are done, and the first `j` nodes of bucket `b`. */
  ghost function Remaining(cells: Memory, chains: seq<seq<Node>>, t: Table, b: nat, j: nat): (r: set<Node>)
    requires |t| > 0 && b < |chains| && j <= |chains[b]|
    ensures r <= cells.Keys
  {
    set n | n in cells && (Bucket(Djb2, t, cells[n].key) > b
                           || (Bucket(Djb2, t, cells[n].key) == b && n !in chains[b][..j]))
  }

  lemma FromEnds(cells: Memory, heads: seq<Node?>, chains: seq<seq<Node>>, t: Table)
    requires Linked(cells, heads, chains, t)
    ensures From(cells, t, 0) == cells.Keys && From(cells, t, |t|) == {}
  {
  }

  lemma RemainingStep(cells: Memory, heads: seq<Node?>, chains: seq<seq<Node>>, t: Table, b: nat, j: nat)
    requires Linked(cells, heads, chains, t) && b < |t| && j < |chains[b]|
    ensures chains[b][j] in Remaining(cells, chains, t, b, j)
    ensures Remaining(cells, chains, t, b, j + 1) == Remaining(cells, chains, t, b, j) - {chains[b][j]}
  {
    hide Bucket, Djb2;
    LinkedAt(cells, heads, chains, t, b);
    ChainsApart(cells, heads, chains, t, b);
    var n := chains[b][j];
    assert NodeOk(cells, chains[b], t[b], j);
    assert Bucket(Djb2, t, t[b][j].key) == b;
    assert chains[b][..j + 1] == chains[b][..j] + [n];
  }

  lemma RemainingEnds(cells: Memory, heads: seq<Node?>, chains: seq<seq<Node>>, t: Table, b: nat)
    requires Linked(cells, heads, chains, t) && b < |t|
    ensures Remaining(cells, chains, t, b, 0) == From(cells, t, b)
    ensures Remaining(cells, chains, t, b, |chains[b]|) == From(cells, t, b + 1)
  {
    hide Bucket, Djb2;
    assert chains[b][..|chains[b]|] == chains[b];
  }
}
