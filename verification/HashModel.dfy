/** The chained hash table as a value: a sequence of chains of entries, and the map it stands for. */
module HashModel {
  import opened MachineInts

  /** A `char` of a C string: signed, and never the terminating zero. */
  type Char = c: int | -128 <= c < 128 && c != 0 witness 1

  type Key = seq<Char>

  /** A `void *`; 0 is NULL. */
  type Value = int

  const NULL: Value := 0

  datatype Entry = Entry(key: Key, value: Value)

  type Chain = seq<Entry>
  type Table = seq<Chain>
  type Hash = Key -> nat

  // ---------------------------------------------------------------- djb2

  function Djb2(key: Key): (h: nat)
    ensures h < TWO_TO_THE_64
  {
    if key == [] then 5381 else (33 * Djb2(key[..|key| - 1]) + key[|key| - 1]) % TWO_TO_THE_64
  }

  function Polynomial(key: Key): int {
    if key == [] then 5381 else 33 * Polynomial(key[..|key| - 1]) + key[|key| - 1]
  }

  /** Wrapping at every character is wrapping once at the end. */
  lemma {:induction false} Djb2IsPolynomial(key: Key)
    ensures Djb2(key) == Polynomial(key) % TWO_TO_THE_64
  {
    if key == [] {
    } else {
      var k := |key| - 1;
      Djb2IsPolynomial(key[..k]);
      WrapOnce(Polynomial(key[..k]), key[k]);
    }
  }

  /** The hashes of "" and of the one-character strings "a" and "\xff". */
  lemma Djb2Examples()
    ensures Djb2([]) == 5381 && Djb2([97]) == 177670 && Djb2([-1]) == 177572
  {
    var a: Key, b: Key := [97], [-1];
    assert a[..0] == [] && b[..0] == [];
    assert Djb2([]) == 5381;
  }

  lemma WrapOnce(p: int, c: int)
    ensures (33 * (p % TWO_TO_THE_64) + c) % TWO_TO_THE_64 == (33 * p + c) % TWO_TO_THE_64
  {
  }

  // ---------------------------------------------------------------- chains

  function Find(c: Chain, key: Key): (j: nat)
    ensures j <= |c|
    ensures j < |c| ==> c[j].key == key
    ensures forall i :: 0 <= i < j ==> c[i].key != key
  {
    if c == [] || c[0].key == key then 0 else 1 + Find(c[1..], key)
  }

  predicate Has(c: Chain, key: Key) { Find(c, key) < |c| }

  function Lookup(c: Chain, key: Key): Value {
    if Has(c, key) then c[Find(c, key)].value else NULL
  }

  ghost predicate UniqueKeys(c: Chain) {
    forall i, j :: 0 <= i < j < |c| ==> c[i].key != c[j].key
  }

  function Put(c: Chain, key: Key, value: Value): Chain {
    if Has(c, key) then c[Find(c, key) := Entry(key, value)] else [Entry(key, value)] + c
  }

  function Drop(c: Chain, key: Key): Chain {
    if Has(c, key) then c[..Find(c, key)] + c[Find(c, key) + 1..] else c
  }

  lemma FindIs(c: Chain, key: Key, j: nat)
    requires j < |c| && c[j].key == key && UniqueKeys(c)
    ensures Find(c, key) == j
  {
  }

  lemma FindMissing(c: Chain, key: Key)
    requires forall i :: 0 <= i < |c| ==> c[i].key != key
    ensures !Has(c, key)
  {
  }

  /** The other entries in their order. */
  function Without(c: Chain, key: Key): Chain {
    if c == [] then []
    else if c[0].key == key then Without(c[1..], key)
    else [c[0]] + Without(c[1..], key)
  }

  lemma {:induction false} NothingToDrop(c: Chain, key: Key)
    requires !Has(c, key)
    ensures Without(c, key) == c
  {
    if c == [] {
    } else {
      assert c[0].key != key && Find(c, key) == 1 + Find(c[1..], key);
      NothingToDrop(c[1..], key);
    }
  }

  lemma FindRest(c: Chain, key: Key)
    requires c != [] && c[0].key != key
    ensures Find(c, key) == 1 + Find(c[1..], key)
  {
  }

  lemma DropIs(c: Chain, key: Key)
    ensures Drop(c, key) == if Has(c, key) then c[..Find(c, key)] + c[Find(c, key) + 1..] else c
  {
  }

  lemma DropRest(c: Chain, key: Key)
    requires c != [] && c[0].key != key
    ensures Drop(c, key) == [c[0]] + Drop(c[1..], key)
  {
    hide Find, Drop;
    FindRest(c, key);
    DropIs(c, key);
    DropIs(c[1..], key);
    if Has(c[1..], key) {
      var j := Find(c[1..], key);
      assert c[..j + 1] == [c[0]] + c[1..][..j] && c[j + 2..] == c[1..][j + 1..];
    }
  }

  /** Removal takes out the key's entry and keeps all others, in order. */
  lemma {:induction false} DropKeepsTheOthers(c: Chain, key: Key)
    requires UniqueKeys(c)
    ensures Drop(c, key) == Without(c, key)
  {
    if c == [] {
    } else {
      var rest := c[1..];
      assert forall i :: 0 <= i < |rest| ==> rest[i] == c[i + 1];
      if c[0].key == key {
        FindMissing(rest, key);
        NothingToDrop(rest, key);
      } else {
        DropRest(c, key);
        DropKeepsTheOthers(rest, key);
      }
    }
  }

  lemma PutLookup(c: Chain, key: Key, value: Value, k: Key)
    requires UniqueKeys(c)
    ensures UniqueKeys(Put(c, key, value))
    ensures Has(Put(c, key, value), k) <==> k == key || Has(c, k)
    ensures k == key || Has(c, k) ==> Lookup(Put(c, key, value), k) == if k == key then value else Lookup(c, k)
  {
    hide Find;
    var c' := Put(c, key, value);
    var shift := if Has(c, key) then 0 else 1;
    if k == key {
      FindIs(c', key, if Has(c, key) then Find(c, key) else 0);
    } else if Has(c, k) {
      FindIs(c', k, Find(c, k) + shift);
    } else {
      FindMissing(c', k);
    }
  }

  /** Where entry `i` of the shortened chain was before. */
  function Before(c: Chain, key: Key, i: nat): nat {
    if i < Find(c, key) then i else i + 1
  }

  lemma DropAt(c: Chain, key: Key, i: nat)
    requires Has(c, key) && i < |c| - 1
    ensures Drop(c, key)[i] == c[Before(c, key, i)]
  {
    hide Find;
  }

  lemma DropKeepsUnique(c: Chain, key: Key)
    requires UniqueKeys(c)
    ensures UniqueKeys(Drop(c, key))
  {
  }

  lemma ChainSizes(c: Chain, key: Key, value: Value)
    ensures |Put(c, key, value)| == if Has(c, key) then |c| else |c| + 1
    ensures |Drop(c, key)| == if Has(c, key) then |c| - 1 else |c|
  {
  }

  lemma DropKeeps(c: Chain, key: Key, k: Key)
    requires UniqueKeys(c) && Has(c, key) && k != key && Has(c, k)
    ensures Has(Drop(c, key), k) && Lookup(Drop(c, key), k) == Lookup(c, k)
  {
    hide Find, Drop, UniqueKeys;
    DropKeepsUnique(c, key);
    ChainSizes(c, key, NULL);
    var i := if Find(c, k) < Find(c, key) then Find(c, k) else Find(c, k) - 1;
    DropAt(c, key, i);
    FindIs(Drop(c, key), k, i);
  }

  lemma DropHides(c: Chain, key: Key, k: Key)
    requires UniqueKeys(c) && Has(c, key) && (k == key || !Has(c, k))
    ensures !Has(Drop(c, key), k)
  {
    hide Find, Drop;
    ChainSizes(c, key, NULL);
    var c' := Drop(c, key);
    forall i | 0 <= i < |c'| ensures c'[i].key != k {
      DropAt(c, key, i);
    }
    FindMissing(c', k);
  }

  lemma DropLookup(c: Chain, key: Key, k: Key)
    requires UniqueKeys(c)
    ensures Has(Drop(c, key), k) <==> k != key && Has(c, k)
    ensures k != key && Has(c, k) ==> Lookup(Drop(c, key), k) == Lookup(c, k)
  {
    hide Find, Has, Lookup, UniqueKeys;
    if !Has(c, key) {
    } else if k != key && Has(c, k) {
      DropKeeps(c, key, k);
    } else {
      DropHides(c, key, k);
    }
  }

  // ---------------------------------------------------------------- tables

  function Bucket(h: Hash, t: Table, key: Key): (b: nat)
    requires |t| > 0
    ensures b < |t|
  {
    h(key) % |t|
  }

  function Size(t: Table): nat {
    if t == [] then 0 else Size(t[..|t| - 1]) + |t[|t| - 1]|
  }

  lemma {:induction false} SizeUpdate(t: Table, b: nat, c: Chain)
    requires b < |t|
    ensures Size(t[b := c]) == Size(t) - |t[b]| + |c|
    decreases |t|
  {
    var n := |t| - 1;
    var t': Table := t[b := c];
    if b == n {
      assert t'[..n] == t[..n];
    } else {
      assert t'[..n] == t[..n][b := c];
      SizeUpdate(t[..n], b, c);
    }
  }

  /** Every key lies in its own bucket, once. A table without buckets is fine as long as it is not used. */
  ghost predicate WellFormed(h: Hash, t: Table) {
    && (forall b :: 0 <= b < |t| ==> UniqueKeys(t[b]))
    && (forall b, j :: 0 <= b < |t| && 0 <= j < |t[b]| ==> Bucket(h, t, t[b][j].key) == b)
  }

  /** Every key lies in the bucket its hash names, and nowhere else. */
  lemma KeysInTheirBuckets(h: Hash, t: Table, b: nat, j: nat, b': nat, j': nat)
    requires WellFormed(h, t) && b < |t| && j < |t[b]| && b' < |t| && j' < |t[b']|
    ensures b == h(t[b][j].key) % |t|
    ensures t[b][j].key == t[b'][j'].key ==> b == b' && j == j'
  {
  }

  function ChainOf(h: Hash, t: Table, key: Key): Chain
    requires |t| > 0
  {
    t[Bucket(h, t, key)]
  }

  /** The table stands for the map: same keys, same values, same number of entries. */
  ghost predicate StandsFor(h: Hash, t: Table, m: map<Key, Value>) {
    && |t| > 0 && WellFormed(h, t)
    && Size(t) == |m|
    && (forall k :: k in m <==> Has(ChainOf(h, t, k), k))
    && (forall k :: k in m ==> m[k] == Lookup(ChainOf(h, t, k), k))
  }

  function Empty(capacity: nat): Table { seq(capacity, _ => []) }

  // ---------------------------------------------------------------- operations

  /** The two flags say whether the two allocations of an insertion succeed. */
  datatype Operation =
    | Insert(key: Key, value: Value, nodeOk: bool, keyOk: bool)
    | Get(key: Key)
    | Remove(key: Key)

  datatype Answer = Success(ok: bool) | Pointer(value: Value)

  function TableStep(h: Hash, t: Table, op: Operation): (Table, Answer)
    requires |t| > 0
  {
    var b := Bucket(h, t, op.key);
    var c := t[b];
    match op
    case Insert(k, v, nodeOk, keyOk) =>
      var ok := Has(c, k) || (nodeOk && keyOk);
      (if ok then t[b := Put(c, k, v)] else t, Success(ok))
    case Get(k) => (t, Pointer(Lookup(c, k)))
    case Remove(k) => (t[b := Drop(c, k)], Success(Has(c, k)))
  }

  function MapStep(m: map<Key, Value>, op: Operation): (map<Key, Value>, Answer) {
    match op
    case Insert(k, v, nodeOk, keyOk) =>
      if k in m then (m[k := v], Success(true))
      else if nodeOk && keyOk then (m[k := v], Success(true))
      else (m, Success(false))
    case Get(k) => (m, Pointer(if k in m then m[k] else NULL))
    case Remove(k) => (m - {k}, Success(k in m))
  }

  /** Replacing a key's chain by one that differs only in that key. */
  lemma ReplaceChain(h: Hash, t: Table, key: Key, c: Chain)
    requires |t| > 0 && WellFormed(h, t) && UniqueKeys(c)
    requires forall k :: Has(c, k) ==> k == key || Has(ChainOf(h, t, key), k)
    ensures WellFormed(h, t[Bucket(h, t, key) := c])
    ensures forall k :: Bucket(h, t[Bucket(h, t, key) := c], k) == Bucket(h, t, k)
  {
    var b := Bucket(h, t, key);
    var t': Table := t[b := c];
    forall i, j | 0 <= i < |t'| && 0 <= j < |t'[i]| ensures Bucket(h, t', t'[i][j].key) == i {
      if i == b {
        var k := c[j].key;
        FindIs(c, k, j);
        assert Has(c, k);
        if k != key {
          assert t[b][Find(t[b], k)].key == k;
        }
      }
    }
  }

  lemma UniqueChain(h: Hash, t: Table, key: Key)
    requires |t| > 0 && WellFormed(h, t)
    ensures UniqueKeys(ChainOf(h, t, key))
  {
  }

  lemma MapWithout(m: map<Key, Value>, key: Key)
    ensures (m - {key}).Keys == m.Keys - {key}
    ensures |m - {key}| == |m| - if key in m then 1 else 0
  {
    assert (m - {key}).Keys == m.Keys - {key};
  }

  /** A key's chain and the map changed alike, at that key only. */
  lemma ChainRefines(h: Hash, t: Table, m: map<Key, Value>, key: Key, c: Chain, m': map<Key, Value>)
    requires StandsFor(h, t, m) && UniqueKeys(c)
    requires |m'| == |m| - |ChainOf(h, t, key)| + |c|
    requires forall k :: k != key ==> (k in m' <==> k in m) && (k in m' ==> m'[k] == m[k])
    requires forall k :: k != key ==>
               && (Has(c, k) <==> Has(ChainOf(h, t, key), k))
               && (Has(c, k) ==> Lookup(c, k) == Lookup(ChainOf(h, t, key), k))
    requires (key in m' <==> Has(c, key)) && (key in m' ==> m'[key] == Lookup(c, key))
    ensures StandsFor(h, t[Bucket(h, t, key) := c], m')
  {
    hide Has, Lookup, Bucket, UniqueKeys;
    var b := Bucket(h, t, key);
    var t': Table := t[b := c];
    ReplaceChain(h, t, key, c);
    SizeUpdate(t, b, c);
    forall k
      ensures k in m' <==> Has(ChainOf(h, t', k), k)
      ensures k in m' ==> m'[k] == Lookup(ChainOf(h, t', k), k)
    {
      assert ChainOf(h, t', k) == if Bucket(h, t, k) == b then c else ChainOf(h, t, k);
    }
  }

  lemma PutRefines(h: Hash, t: Table, m: map<Key, Value>, key: Key, value: Value)
    requires StandsFor(h, t, m)
    ensures StandsFor(h, t[Bucket(h, t, key) := Put(ChainOf(h, t, key), key, value)], m[key := value])
  {
    hide Has, Lookup, Put, Bucket, WellFormed;
    var c := ChainOf(h, t, key);
    UniqueChain(h, t, key);
    ChainSizes(c, key, value);
    forall k { PutLookup(c, key, value, k); }
    ChainRefines(h, t, m, key, Put(c, key, value), m[key := value]);
  }

  lemma DropRefines(h: Hash, t: Table, m: map<Key, Value>, key: Key)
    requires StandsFor(h, t, m)
    ensures StandsFor(h, t[Bucket(h, t, key) := Drop(ChainOf(h, t, key), key)], m - {key})
  {
    hide Has, Lookup, Drop, Bucket, WellFormed;
    var c := ChainOf(h, t, key);
    UniqueChain(h, t, key);
    DropKeepsUnique(c, key);
    ChainSizes(c, key, NULL);
    MapWithout(m, key);
    forall k { DropLookup(c, key, k); }
    ChainRefines(h, t, m, key, Drop(c, key), m - {key});
  }

  /** `ht_insert`: a key that is there gets the new value whatever the memory; a new one needs both allocations. */
  lemma InsertMeans(h: Hash, t: Table, m: map<Key, Value>, k: Key, v: Value, nodeOk: bool, keyOk: bool)
    requires StandsFor(h, t, m)
    ensures var (t', answer) := TableStep(h, t, Insert(k, v, nodeOk, keyOk));
            && answer == Success(k in m || (nodeOk && keyOk))
            && StandsFor(h, t', if k in m || (nodeOk && keyOk) then m[k := v] else m)
            && (k !in m && !(nodeOk && keyOk) ==> t' == t)
  {
    hide Put;
    PutRefines(h, t, m, k, v);
  }

  /** `ht_get`: the stored value, or NULL. */
  lemma GetMeans(h: Hash, t: Table, m: map<Key, Value>, k: Key)
    requires StandsFor(h, t, m)
    ensures TableStep(h, t, Get(k)) == (t, Pointer(if k in m then m[k] else 0))
  {
  }

  /** `ht_remove`: whether the key was there; then it is gone. */
  lemma RemoveMeans(h: Hash, t: Table, m: map<Key, Value>, k: Key)
    requires StandsFor(h, t, m)
    ensures var (t', answer) := TableStep(h, t, Remove(k));
            && answer == Success(k in m)
            && StandsFor(h, t', m - {k})
            && (k !in m ==> t' == t)
  {
    hide Find;
    DropRefines(h, t, m, k);
  }

  /** Each operation answers as the map does, and leaves a table that stands for the new map. */
  lemma StepRefines(h: Hash, t: Table, m: map<Key, Value>, op: Operation)
    requires StandsFor(h, t, m)
    ensures StandsFor(h, TableStep(h, t, op).0, MapStep(m, op).0)
    ensures TableStep(h, t, op).1 == MapStep(m, op).1
  {
    match op
    case Insert(k, v, _, _) => PutRefines(h, t, m, k, v);
    case Get(k) =>
    case Remove(k) => DropRefines(h, t, m, k);
  }

  /** Keys stay unique and in their own buckets. */
  lemma StepKeepsWellFormed(h: Hash, t: Table, op: Operation)
    requires |t| > 0 && WellFormed(h, t)
    ensures WellFormed(h, TableStep(h, t, op).0)
    ensures var b := Bucket(h, t, op.key);
            Size(TableStep(h, t, op).0) == Size(t) - |t[b]| + |TableStep(h, t, op).0[b]|
  {
    hide Find, Has, Put, Drop;
    var b := Bucket(h, t, op.key);
    var c := t[b];
    match op
    case Insert(k, v, _, _) =>
      PutLookup(c, k, v, k);
      forall x { PutLookup(c, k, v, x); }
      ReplaceChain(h, t, k, Put(c, k, v));
      SizeUpdate(t, b, Put(c, k, v));
    case Get(k) =>
    case Remove(k) =>
      DropKeepsUnique(c, k);
      forall x { DropLookup(c, k, x); }
      ReplaceChain(h, t, k, Drop(c, k));
      SizeUpdate(t, b, Drop(c, k));
  }

  // ---------------------------------------------------------------- whole runs

  lemma StepKeepsCapacity(h: Hash, t: Table, op: Operation)
    requires |t| > 0
    ensures |TableStep(h, t, op).0| == |t|
  {
  }

  function TableRun(h: Hash, t: Table, ops: seq<Operation>): (Table, seq<Answer>)
    requires |t| > 0
    decreases |ops|
  {
    if ops == [] then (t, [])
    else
      StepKeepsCapacity(h, t, ops[0]);
      var (t1, a) := TableStep(h, t, ops[0]);
      var (t2, rest) := TableRun(h, t1, ops[1..]);
      (t2, [a] + rest)
  }

  function MapRun(m: map<Key, Value>, ops: seq<Operation>): (map<Key, Value>, seq<Answer>)
    decreases |ops|
  {
    if ops == [] then (m, [])
    else
      var (m1, a) := MapStep(m, ops[0]);
      var (m2, rest) := MapRun(m1, ops[1..]);
      (m2, [a] + rest)
  }

  lemma {:induction false} RunRefines(h: Hash, t: Table, m: map<Key, Value>, ops: seq<Operation>)
    requires StandsFor(h, t, m)
    ensures StandsFor(h, TableRun(h, t, ops).0, MapRun(m, ops).0)
    ensures TableRun(h, t, ops).1 == MapRun(m, ops).1
    decreases |ops|
  {
    if ops == [] {
    } else {
      StepRefines(h, t, m, ops[0]);
      RunRefines(h, TableStep(h, t, ops[0]).0, MapStep(m, ops[0]).0, ops[1..]);
    }
  }

  lemma {:induction false} EmptySize(capacity: nat)
    ensures Size(Empty(capacity)) == 0
  {
    if capacity == 0 {
    } else {
      assert Empty(capacity)[..capacity - 1] == Empty(capacity - 1);
      EmptySize(capacity - 1);
    }
  }

  lemma EmptyStandsForNothing(h: Hash, capacity: nat)
    requires capacity > 0
    ensures StandsFor(h, Empty(capacity), map[])
  {
    EmptySize(capacity);
  }

  /** From an empty table, any sequence of operations answers as on a map, whatever the capacity
      and whatever the hash function. */
  lemma AnswersDependOnlyOnOperations(h: Hash, capacity: nat, h': Hash, capacity': nat, ops: seq<Operation>)
    requires capacity > 0 && capacity' > 0
    ensures TableRun(h, Empty(capacity), ops).1 == MapRun(map[], ops).1 == TableRun(h', Empty(capacity'), ops).1
    ensures Size(TableRun(h, Empty(capacity), ops).0) == |MapRun(map[], ops).0|
  {
    EmptyStandsForNothing(h, capacity);
    EmptyStandsForNothing(h', capacity');
    RunRefines(h, Empty(capacity), map[], ops);
    RunRefines(h', Empty(capacity'), map[], ops);
  }
}
