/** The three-level map from addresses to allocation values: a chained hash table of
    clusters, a list of entries per block of a cluster, and a free list of entries. */
module AddressMaps {
  import opened Common

  const BLOCK: int := 128
  const CLUSTER_BLOCKS: int := 8192
  const CLUSTER: int := 1048576
  const HASH_SIZE: int := 4096
  const HASH_MULTIPLIER: int := 2654435769
  const ALLOC_COUNT: int := 64

  type Key = int
  type EntryRef = nat

  /** What is recorded for an allocation: a tagged bucket pointer and a size. */
  datatype Value = Value(rep: int, bytes: int)

  datatype Entry = Entry(key: Key, value: Value)

  /** `blocks[b]` lists the entries of one block. */
  datatype Cluster = Cluster(id: int, blocks: seq<seq<EntryRef>>)

  type Table = seq<seq<Cluster>>
  type Store = map<EntryRef, Entry>

  /** `store` holds every entry ever allocated, `free` lists the unused ones. */
  datatype State = State(table: Table, store: Store, free: seq<EntryRef>, next: nat)

  function HashInt(x: int): (h: int)
    ensures 0 <= h < HASH_SIZE
  {
    x % 0x1_0000_0000 * HASH_MULTIPLIER % 0x1_0000_0000 / 0x10_0000
  }

  function ClusterId(num: int): int { num / CLUSTER }

  function BlockId(num: int): int { num / BLOCK % CLUSTER_BLOCKS }

  // ------------------------------------------------------------------ clusters

  ghost predicate ClusterOk(c: Cluster, h: int) { c.id >= 0 && HashInt(c.id) == h && |c.blocks| == CLUSTER_BLOCKS }

  ghost predicate ChainOk(chain: seq<Cluster>, h: int) {
    && (forall i :: 0 <= i < |chain| ==> ClusterOk(chain[i], h))
    && forall i, j :: 0 <= i < j < |chain| ==> chain[i].id != chain[j].id
  }

  ghost predicate TableOk(table: Table) {
    |table| == HASH_SIZE && forall h {:trigger ChainOk(table[h], h)} :: 0 <= h < HASH_SIZE ==> ChainOk(table[h], h)
  }

  /** Position of the cluster `id` in its chain, or -1. */
  function Index(chain: seq<Cluster>, id: int): (i: int)
    ensures -1 <= i < |chain|
    ensures i >= 0 ==> chain[i].id == id
    ensures i == -1 ==> forall j :: 0 <= j < |chain| ==> chain[j].id != id
  {
    if chain == [] then -1
    else if chain[0].id == id then 0
    else var i := Index(chain[1..], id); if i < 0 then -1 else i + 1
  }

  lemma IndexIs(chain: seq<Cluster>, h: int, i: int)
    requires ChainOk(chain, h) && 0 <= i < |chain|
    ensures Index(chain, chain[i].id) == i
  {
    var j := Index(chain, chain[i].id);
    assert j >= 0;
  }

  /** The entries of block number `n`, wherever its cluster is. */
  function Blk(table: Table, n: int): seq<EntryRef> {
    if n < 0 || |table| != HASH_SIZE then []
    else
      var id := n / CLUSTER_BLOCKS;
      var chain := table[HashInt(id)];
      var i := Index(chain, id);
      if i < 0 || |chain[i].blocks| != CLUSTER_BLOCKS then [] else chain[i].blocks[n % CLUSTER_BLOCKS]
  }

  function BlockNumber(id: int, b: int): int { id * CLUSTER_BLOCKS + b }

  function WithBlock(table: Table, h: int, i: int, b: int, list: seq<EntryRef>): Table
    requires 0 <= h < |table| && 0 <= i < |table[h]| && 0 <= b < |table[h][i].blocks|
  {
    table[h := table[h][i := table[h][i].(blocks := table[h][i].blocks[b := list])]]
  }

  lemma BlockAt(table: Table, h: int, i: int, b: int)
    requires TableOk(table) && 0 <= h < HASH_SIZE && 0 <= i < |table[h]| && 0 <= b < CLUSTER_BLOCKS
    ensures |table[h][i].blocks| == CLUSTER_BLOCKS && table[h][i].id >= 0
    ensures Blk(table, BlockNumber(table[h][i].id, b)) == table[h][i].blocks[b]
  {
    assert ChainOk(table[h], h) && ClusterOk(table[h][i], h);
    IndexIs(table[h], h, i);
    var n := BlockNumber(table[h][i].id, b);
    assert n / CLUSTER_BLOCKS == table[h][i].id && n % CLUSTER_BLOCKS == b;
  }

  lemma ChainUpdate(chain: seq<Cluster>, h: int, i: int, c: Cluster)
    requires ChainOk(chain, h) && 0 <= i < |chain| && c.id == chain[i].id && |c.blocks| == CLUSTER_BLOCKS
    ensures ChainOk(chain[i := c], h)
    ensures forall id :: Index(chain[i := c], id) == Index(chain, id)
  {
    var chain' := chain[i := c];
    assert ClusterOk(chain[i], h);
    forall j | 0 <= j < |chain'| ensures ClusterOk(chain'[j], h) { assert ClusterOk(chain[j], h); }
    forall id ensures Index(chain', id) == Index(chain, id) {
      var x, y := Index(chain', id), Index(chain, id);
      if x >= 0 { IndexIs(chain, h, x); assert chain[x].id == chain'[x].id; }
      if y >= 0 { IndexIs(chain', h, y); assert chain'[y].id == chain[y].id; }
    }
  }

  /** Changing one block list changes that block and no other. */
  lemma BlockUpdate(table: Table, h: int, i: int, b: int, list: seq<EntryRef>)
    requires TableOk(table) && 0 <= h < HASH_SIZE && 0 <= i < |table[h]| && 0 <= b < |table[h][i].blocks|
    ensures |table[h][i].blocks| == CLUSTER_BLOCKS
    ensures var table' := WithBlock(table, h, i, b, list);
      && TableOk(table')
      && Blk(table', BlockNumber(table[h][i].id, b)) == list
      && forall n :: n != BlockNumber(table[h][i].id, b) ==> Blk(table', n) == Blk(table, n)
  {
    assert ChainOk(table[h], h) && ClusterOk(table[h][i], h);
    var c, table' := table[h][i], WithBlock(table, h, i, b, list);
    ChainUpdate(table[h], h, i, c.(blocks := c.blocks[b := list]));
    forall g | 0 <= g < HASH_SIZE ensures ChainOk(table'[g], g) { assert ChainOk(table[g], g); }
    BlockAt(table', h, i, b);
    forall n | n != BlockNumber(c.id, b) ensures Blk(table', n) == Blk(table, n) {
      if n >= 0 && n / CLUSTER_BLOCKS == c.id { assert n % CLUSTER_BLOCKS != b; IndexIs(table[h], h, i); }
      else { OtherCluster(table, table', h, i, n); }
    }
  }

  lemma OtherCluster(table: Table, table': Table, h: int, i: int, n: int)
    requires TableOk(table) && |table'| == HASH_SIZE && 0 <= h < HASH_SIZE && 0 <= i < |table[h]|
    requires forall g :: 0 <= g < HASH_SIZE && g != h ==> table'[g] == table[g]
    requires |table'[h]| == |table[h]| && forall j :: 0 <= j < |table[h]| && j != i ==> table'[h][j] == table[h][j]
    requires forall id :: Index(table'[h], id) == Index(table[h], id)
    requires n < 0 || n / CLUSTER_BLOCKS != table[h][i].id
    ensures Blk(table', n) == Blk(table, n)
  {
    if n >= 0 {
      var id := n / CLUSTER_BLOCKS;
      assert Index(table'[HashInt(id)], id) == Index(table[HashInt(id)], id);
    }
  }

  /** A new empty cluster in front of its chain changes no block. */
  lemma ClusterAdded(table: Table, id: int)
    requires TableOk(table) && id >= 0 && Index(table[HashInt(id)], id) == -1
    ensures var h := HashInt(id);
      var table' := table[h := [Cluster(id, seq(CLUSTER_BLOCKS, _ => []))] + table[h]];
      TableOk(table') && forall n :: Blk(table', n) == Blk(table, n)
  {
    var h := HashInt(id);
    var c := Cluster(id, seq(CLUSTER_BLOCKS, _ => []));
    var table' := table[h := [c] + table[h]];
    assert ChainOk(table[h], h);
    forall g | 0 <= g < HASH_SIZE ensures ChainOk(table'[g], g) {
      assert ChainOk(table[g], g);
      if g == h { ChainPush(table[h], h, c); }
    }
    assert table'[h][1..] == table[h];
  }

  lemma ChainPush(chain: seq<Cluster>, h: int, c: Cluster)
    requires ChainOk(chain, h) && ClusterOk(c, h) && Index(chain, c.id) == -1
    ensures ChainOk([c] + chain, h)
  {
    var chain' := [c] + chain;
    forall i | 0 <= i < |chain'| ensures ClusterOk(chain'[i], h) {
      if i > 0 { assert ClusterOk(chain[i - 1], h); }
    }
  }

  // ------------------------------------------------------------------- entries

  ghost predicate Listed(table: Table, n: int, e: EntryRef) { e in Blk(table, n) }

  /** A listed entry is in the block of its key, is the only one for its key, and is not
      on the free list. */
  ghost predicate EntryOk(s: State, at: map<Key, EntryRef>, n: int, e: EntryRef) {
    && e in s.store && s.store[e].key >= 0 && s.store[e].key / BLOCK == n
    && s.store[e].key in at && at[s.store[e].key] == e && e !in s.free
  }

  ghost predicate KeyOk(s: State, k: Key, e: EntryRef) {
    k >= 0 && Listed(s.table, k / BLOCK, e) && e in s.store && s.store[e].key == k
  }

  ghost predicate FreeOk(s: State) {
    && NoRepeats(s.free) && (forall e :: e in s.free ==> e in s.store)
    && (forall e :: e in s.store ==> e < s.next)
  }

  /** `at` says which entry holds each recorded key. */
  ghost predicate Ok(s: State, at: map<Key, EntryRef>) {
    && TableOk(s.table) && FreeOk(s)
    && (forall n, e {:trigger Listed(s.table, n, e)} :: Listed(s.table, n, e) ==> EntryOk(s, at, n, e))
    && (forall k {:trigger at[k]} :: k in at ==> KeyOk(s, k, at[k]))
    && (forall n {:trigger Blk(s.table, n)} :: NoRepeats(Blk(s.table, n)))
  }

  /** The finite map the structure stands for. */
  ghost function Contents(s: State, at: map<Key, EntryRef>): map<Key, Value> {
    map k | k in at && at[k] in s.store :: s.store[at[k]].value
  }

  lemma ContentsAt(s: State, at: map<Key, EntryRef>)
    requires Ok(s, at)
    ensures Contents(s, at).Keys == at.Keys
    ensures forall k :: k in at ==> (
      at[k] in s.store && s.store[at[k]].key == k && Contents(s, at)[k] == s.store[at[k]].value && k >= 0)
  {
    hide Blk, TableOk;
    forall k | k in at ensures at[k] in s.store && s.store[at[k]].key == k && k >= 0 { assert KeyOk(s, k, at[k]); }
  }

  ghost predicate BlocksAgree(table: Table, table': Table, n: int) {
    forall m :: m != n ==> Blk(table', m) == Blk(table, m)
  }

  lemma KeyBlock(key: Key)
    requires key >= 0
    ensures BlockNumber(ClusterId(key), BlockId(key)) == key / BLOCK
    ensures ClusterId(key) == key / BLOCK / CLUSTER_BLOCKS >= 0 && 0 <= BlockId(key) < CLUSTER_BLOCKS
  {
  }

  function WithValue(s: State, e: EntryRef, v: Value): State
    requires e in s.store
  {
    s.(store := s.store[e := s.store[e].(value := v)])
  }

  lemma SetOk(s: State, at: map<Key, EntryRef>, k: Key, v: Value)
    requires Ok(s, at) && k in at && at[k] in s.store
    ensures Ok(WithValue(s, at[k], v), at)
    ensures Contents(WithValue(s, at[k], v), at) == Contents(s, at)[k := v]
  {
    hide Blk, TableOk;
    var s' := WithValue(s, at[k], v);
    assert KeyOk(s, k, at[k]);
    forall n, e {:trigger Listed(s'.table, n, e)} | Listed(s'.table, n, e) ensures EntryOk(s', at, n, e) {
      assert Listed(s.table, n, e);
    }
    forall j {:trigger at[j]} | j in at ensures KeyOk(s', j, at[j]) { assert KeyOk(s, j, at[j]); }
  }

  lemma FreeIsUnlisted(s: State, at: map<Key, EntryRef>, e: EntryRef)
    requires Ok(s, at) && e in s.free
    ensures e in s.store && (forall n :: e !in Blk(s.table, n)) && forall k :: k in at ==> at[k] != e
  {
    hide Blk, TableOk;
    forall n ensures e !in Blk(s.table, n) { assert Listed(s.table, n, e) ==> EntryOk(s, at, n, e); }
    forall k | k in at ensures at[k] != e { assert KeyOk(s, k, at[k]); }
  }

  lemma PushFree(s: State)
    requires FreeOk(s) && s.free != []
    ensures s.free[0] !in s.free[1..] && NoRepeats(s.free[1..])
  {
  }

  lemma PushEntry(s: State, at: map<Key, EntryRef>, table: Table, key: Key, v: Value, n: int, x: EntryRef)
    requires Ok(s, at) && s.free != [] && key >= 0 && key !in at && Listed(table, n, x)
    requires Blk(table, key / BLOCK) == [s.free[0]] + Blk(s.table, key / BLOCK)
    requires BlocksAgree(s.table, table, key / BLOCK)
    ensures var e := s.free[0];
      EntryOk(State(table, s.store[e := Entry(key, v)], s.free[1..], s.next), at[key := e], n, x)
  {
    hide Blk, TableOk;
    FreeIsUnlisted(s, at, s.free[0]);
    PushFree(s);
    if x != s.free[0] || n != key / BLOCK {
      assert Listed(s.table, n, x);
      assert EntryOk(s, at, n, x);
    }
  }

  lemma PushKey(s: State, at: map<Key, EntryRef>, table: Table, key: Key, v: Value, k: Key)
    requires Ok(s, at) && s.free != [] && key >= 0 && key !in at && (k in at || k == key)
    requires Blk(table, key / BLOCK) == [s.free[0]] + Blk(s.table, key / BLOCK)
    requires BlocksAgree(s.table, table, key / BLOCK)
    ensures var e := s.free[0];
      KeyOk(State(table, s.store[e := Entry(key, v)], s.free[1..], s.next), k, at[key := e][k])
  {
    hide Blk, TableOk;
    if k != key {
      assert KeyOk(s, k, at[k]);
      FreeIsUnlisted(s, at, s.free[0]);
    }
  }

  lemma PushBlock(s: State, at: map<Key, EntryRef>, table: Table, key: Key, n: int)
    requires Ok(s, at) && s.free != []
    requires Blk(table, key / BLOCK) == [s.free[0]] + Blk(s.table, key / BLOCK)
    requires BlocksAgree(s.table, table, key / BLOCK)
    ensures NoRepeats(Blk(table, n))
  {
    hide Blk, TableOk, EntryOk, KeyOk;
    FreeIsUnlisted(s, at, s.free[0]);
    assert NoRepeats(Blk(s.table, n));
    if n != key / BLOCK { assert Blk(table, n) == Blk(s.table, n); }
  }

  /** The first free entry becomes the entry of a new key. */
  lemma PushOk(s: State, at: map<Key, EntryRef>, table: Table, key: Key, v: Value)
    requires Ok(s, at) && s.free != [] && key >= 0 && key !in at && TableOk(table)
    requires Blk(table, key / BLOCK) == [s.free[0]] + Blk(s.table, key / BLOCK)
    requires BlocksAgree(s.table, table, key / BLOCK)
    ensures var e := s.free[0];
      var s' := State(table, s.store[e := Entry(key, v)], s.free[1..], s.next);
      Ok(s', at[key := e]) && Contents(s', at[key := e]) == Contents(s, at)[key := v]
  {
    hide Blk, TableOk, EntryOk, KeyOk, NoRepeats, Listed, BlocksAgree;
    var e := s.free[0];
    var s', at' := State(table, s.store[e := Entry(key, v)], s.free[1..], s.next), at[key := e];
    FreeIsUnlisted(s, at, e);
    PushFree(s);
    forall n, x {:trigger Listed(s'.table, n, x)} | Listed(s'.table, n, x) ensures EntryOk(s', at', n, x) {
      PushEntry(s, at, table, key, v, n, x);
    }
    forall k {:trigger at'[k]} | k in at' ensures KeyOk(s', k, at'[k]) { PushKey(s, at, table, key, v, k); }
    forall n {:trigger Blk(s'.table, n)} ensures NoRepeats(Blk(s'.table, n)) { PushBlock(s, at, table, key, n); }
    PushContents(s, at, table, key, v);
  }

  lemma PushContents(s: State, at: map<Key, EntryRef>, table: Table, key: Key, v: Value)
    requires Ok(s, at) && s.free != []
    ensures var e := s.free[0];
      var s' := State(table, s.store[e := Entry(key, v)], s.free[1..], s.next);
      Contents(s', at[key := e]) == Contents(s, at)[key := v]
  {
    hide Blk, TableOk, Ok;
    FreeIsUnlisted(s, at, s.free[0]);
    ContentsAt(s, at);
  }

  /** An entry leaves its block and goes to the front of the free list. */
  lemma DropOk(s: State, at: map<Key, EntryRef>, table: Table, key: Key, j: int)
    requires Ok(s, at) && key in at && TableOk(table) && BlocksAgree(s.table, table, key / BLOCK)
    requires var list := Blk(s.table, key / BLOCK);
      0 <= j < |list| && list[j] == at[key] && Blk(table, key / BLOCK) == list[..j] + list[j + 1..]
    ensures var s' := State(table, s.store, [at[key]] + s.free, s.next);
      Ok(s', at - {key}) && Contents(s', at - {key}) == Contents(s, at) - {key}
  {
    hide Blk, TableOk;
    var e, list := at[key], Blk(s.table, key / BLOCK);
    var s', at' := State(table, s.store, [e] + s.free, s.next), at - {key};
    assert KeyOk(s, key, e);
    assert EntryOk(s, at, key / BLOCK, e);
    assert NoRepeats(list);
    forall n, x {:trigger Listed(s'.table, n, x)} | Listed(s'.table, n, x) ensures EntryOk(s', at', n, x) {
      assert Listed(s.table, n, x);
      assert EntryOk(s, at, n, x);
    }
    forall k {:trigger at'[k]} | k in at' ensures KeyOk(s', k, at'[k]) {
      assert KeyOk(s, k, at[k]);
      if k / BLOCK == key / BLOCK {
        var i :| 0 <= i < |list| && list[i] == at[k];
        assert i != j;
        assert (list[..j] + list[j + 1..])[if i < j then i else i - 1] == at[k];
      }
    }
    forall n {:trigger Blk(s'.table, n)} ensures NoRepeats(Blk(s'.table, n)) { assert NoRepeats(Blk(s.table, n)); }
  }

  predicate InBatch(next: nat, e: EntryRef) { next <= e < next + ALLOC_COUNT }

  /** A fresh batch of entries is put on the free list. */
  function Refilled(s: State): State {
    s.(store := s.store + (map e | s.next <= e < s.next + ALLOC_COUNT && InBatch(s.next, e) :: Entry(0, Value(0, 0))),
       free := seq(ALLOC_COUNT, i requires i >= 0 => s.next + i) + s.free, next := s.next + ALLOC_COUNT)
  }

  lemma RefillOk(s: State, at: map<Key, EntryRef>)
    requires Ok(s, at)
    ensures Ok(Refilled(s), at) && Contents(Refilled(s), at) == Contents(s, at)
  {
    hide Blk, TableOk;
    var s' := Refilled(s);
    forall n, e {:trigger Listed(s'.table, n, e)} | Listed(s'.table, n, e) ensures EntryOk(s', at, n, e) {
      assert Listed(s.table, n, e);
    }
    forall k {:trigger at[k]} | k in at ensures KeyOk(s', k, at[k]) { assert KeyOk(s, k, at[k]); }
    RefillFree(s);
    ContentsAt(s, at);
    ContentsAt(s', at);
  }

  lemma RefillFree(s: State)
    requires FreeOk(s)
    ensures FreeOk(Refilled(s)) && forall e :: e in Refilled(s).free && e !in s.free ==> e >= s.next
  {
    var s' := Refilled(s);
    forall i, j | 0 <= i < j < |s'.free| ensures s'.free[i] != s'.free[j] {
      if i < ALLOC_COUNT <= j { assert s.free[j - ALLOC_COUNT] in s.store; }
    }
    forall e | e in s'.free ensures e in s'.store && (e !in s.free ==> e >= s.next) {
      var i :| 0 <= i < |s'.free| && s'.free[i] == e;
      if i < ALLOC_COUNT { assert e == s.next + i && InBatch(s.next, e); } else { assert e == s.free[i - ALLOC_COUNT]; }
    }
  }

  /** Only the cluster layer changed, and no block did. */
  lemma TableOnly(s: State, at: map<Key, EntryRef>, table: Table)
    requires Ok(s, at) && TableOk(table) && forall n :: Blk(table, n) == Blk(s.table, n)
    ensures Ok(s.(table := table), at) && Contents(s.(table := table), at) == Contents(s, at)
  {
    hide Blk, TableOk;
    var s' := s.(table := table);
    forall n, e {:trigger Listed(s'.table, n, e)} | Listed(s'.table, n, e) ensures EntryOk(s', at, n, e) {
      assert Listed(s.table, n, e);
    }
    forall k {:trigger at[k]} | k in at ensures KeyOk(s', k, at[k]) { assert KeyOk(s, k, at[k]); }
    forall n {:trigger Blk(s'.table, n)} ensures NoRepeats(Blk(s'.table, n)) { assert NoRepeats(Blk(s.table, n)); }
  }

  /** The entry with a given key is in the list of the key's block, if anywhere. */
  lemma KeyFound(s: State, at: map<Key, EntryRef>, key: Key, j: int)
    requires Ok(s, at) && key >= 0
    requires var list := Blk(s.table, key / BLOCK);
      && -1 <= j < |list|
      && (j >= 0 ==> list[j] in s.store && s.store[list[j]].key == key)
      && (j == -1 ==> forall i :: 0 <= i < |list| && list[i] in s.store ==> s.store[list[i]].key != key)
    ensures j >= 0 <==> key in at
    ensures j >= 0 ==> Blk(s.table, key / BLOCK)[j] == at[key]
  {
    hide Blk, TableOk;
    var list := Blk(s.table, key / BLOCK);
    if j >= 0 { assert Listed(s.table, key / BLOCK, list[j]); }
    if key in at { assert KeyOk(s, key, at[key]); }
  }

  lemma BlockStored(s: State, at: map<Key, EntryRef>, n: int)
    requires Ok(s, at)
    ensures forall i :: 0 <= i < |Blk(s.table, n)| ==> Blk(s.table, n)[i] in s.store
  {
    forall i | 0 <= i < |Blk(s.table, n)| ensures Blk(s.table, n)[i] in s.store {
      assert Listed(s.table, n, Blk(s.table, n)[i]);
    }
  }

  // -------------------------------------------------------------- interior search

  /** The test FindInside makes; the end of the range is a 64-bit sum. */
  predicate Hit(x: Entry, key: Key) { x.key <= key && (x.key == key || key < (x.key + x.value.bytes) % WORD) }

  function FirstHit(list: seq<EntryRef>, store: Store, key: Key): Option<EntryRef> {
    if list == [] then None
    else if list[0] in store && Hit(store[list[0]], key) then Some(list[0])
    else FirstHit(list[1..], store, key)
  }

  ghost predicate HasBelow(list: seq<EntryRef>, store: Store, key: Key) {
    exists i :: 0 <= i < |list| && list[i] in store && store[list[i]].key <= key
  }

  /** No block from number `lo` up to that of `key` has a key at or below `key`. */
  ghost predicate Quiet(s: State, key: Key, lo: int) {
    forall m {:trigger Blk(s.table, m)} :: lo <= m <= key / BLOCK ==> !HasBelow(Blk(s.table, m), s.store, key)
  }

  /** The last block up to that of `key` with a key at or below `key`. */
  ghost predicate Nearest(s: State, key: Key, n: int) {
    0 <= n <= key / BLOCK && HasBelow(Blk(s.table, n), s.store, key) && Quiet(s, key, n + 1)
  }

  /** The walk backwards gives up before a block that ends more than `maxSize` below. */
  ghost predicate InReach(key: Key, maxSize: int, n: int) {
    n == key / BLOCK || key - (n * BLOCK + BLOCK - 1) <= maxSize
  }

  /** What FindInside returns: the first entry containing `key` in the nearest block. */
  ghost function Inside(s: State, maxSize: int, key: Key): Option<EntryRef> {
    if exists n :: Nearest(s, key, n) && InReach(key, maxSize, n) then
      var n :| Nearest(s, key, n) && InReach(key, maxSize, n);
      FirstHit(Blk(s.table, n), s.store, key)
    else None
  }

  lemma InsideAt(s: State, maxSize: int, key: Key, n: int)
    requires Nearest(s, key, n) && InReach(key, maxSize, n)
    ensures Inside(s, maxSize, key) == FirstHit(Blk(s.table, n), s.store, key)
  {
    hide Blk, HasBelow;
    forall m | Nearest(s, key, m) && InReach(key, maxSize, m) ensures m == n {
      assert m < n ==> !HasBelow(Blk(s.table, n), s.store, key);
      assert n < m ==> !HasBelow(Blk(s.table, m), s.store, key);
    }
  }

  lemma InsideNowhere(s: State, maxSize: int, key: Key, lo: int)
    requires Quiet(s, key, lo) && lo <= key / BLOCK && (lo > 0 ==> !InReach(key, maxSize, lo - 1))
    ensures Inside(s, maxSize, key) == None
  {
    hide Blk, HasBelow;
    forall n | Nearest(s, key, n) ensures !InReach(key, maxSize, n) {
      assert n >= lo ==> !HasBelow(Blk(s.table, n), s.store, key);
    }
  }

  lemma {:induction false} FirstHitSound(list: seq<EntryRef>, store: Store, key: Key)
    ensures var r := FirstHit(list, store, key);
      && (r.Some? ==> r.value in list && r.value in store && Hit(store[r.value], key))
      && (r.None? ==> forall i :: 0 <= i < |list| && list[i] in store ==> !Hit(store[list[i]], key))
  {
    if list != [] && !(list[0] in store && Hit(store[list[0]], key)) {
      FirstHitSound(list[1..], store, key);
      forall i | FirstHit(list, store, key).None? && 0 <= i < |list| && list[i] in store
        ensures !Hit(store[list[i]], key)
      {
        if i > 0 { assert list[i] == list[1..][i - 1]; }
      }
    }
  }

  /** The recorded ranges: none starts inside another, none wraps around the address space. */
  ghost predicate Ranges(m: map<Key, Value>) {
    && (forall k :: k in m ==> 0 <= m[k].bytes && k + m[k].bytes < WORD)
    && (forall k, l :: k in m && l in m && k < l ==> k + m[k].bytes <= l)
  }

  ghost predicate Bounded(m: map<Key, Value>, maxSize: int) { forall k :: k in m ==> m[k].bytes <= maxSize }

  /** A plain search over all ranges. */
  ghost predicate Covers(m: map<Key, Value>, k: Key, key: Key) { k in m && (k == key || k <= key < k + m[k].bytes) }

  lemma HitIsCovers(s: State, at: map<Key, EntryRef>, k: Key, key: Key)
    requires Ok(s, at) && Ranges(Contents(s, at)) && k in at
    ensures at[k] in s.store && s.store[at[k]].key == k && k >= 0
    ensures Hit(s.store[at[k]], key) <==> Covers(Contents(s, at), k, key)
  {
    hide Blk, TableOk, Contents;
    assert KeyOk(s, k, at[k]);
    ContentsAt(s, at);
    hide Ok;
    NoWrap(k + s.store[at[k]].value.bytes);
  }

  lemma NoWrap(x: int)
    requires 0 <= x < WORD
    ensures x % WORD == x
  {
  }

  lemma ListedKey(s: State, at: map<Key, EntryRef>, n: int, e: EntryRef)
    requires Ok(s, at) && e in Blk(s.table, n)
    ensures e in s.store && s.store[e].key in at && at[s.store[e].key] == e && s.store[e].key / BLOCK == n
  {
    hide Blk, TableOk;
    assert Listed(s.table, n, e);
  }

  /** A range that contains `key` is in the nearest block. */
  lemma CoverIsNearest(s: State, at: map<Key, EntryRef>, k: Key, key: Key)
    requires Ok(s, at) && Ranges(Contents(s, at)) && key >= 0 && k in at && Covers(Contents(s, at), k, key)
    ensures Nearest(s, key, k / BLOCK)
  {
    hide Blk, TableOk;
    var m := Contents(s, at);
    HitIsCovers(s, at, k, key);
    var n := k / BLOCK;
    assert KeyOk(s, k, at[k]);
    assert HasBelow(Blk(s.table, n), s.store, key);
    forall x {:trigger Blk(s.table, x)} | n + 1 <= x <= key / BLOCK ensures !HasBelow(Blk(s.table, x), s.store, key) {
      forall i | 0 <= i < |Blk(s.table, x)| && Blk(s.table, x)[i] in s.store
        ensures s.store[Blk(s.table, x)[i]].key > key
      {
        var e := Blk(s.table, x)[i];
        ListedKey(s, at, x, e);
        ContentsAt(s, at);
        assert k < s.store[e].key;
      }
    }
  }

  /** What FindInside finds, exactly: the entry whose range contains `key` (or starts at
      it), provided the entry's block does not end more than `maxSize` below `key`. */
  lemma InsideExact(s: State, at: map<Key, EntryRef>, maxSize: int, key: Key, k: Key)
    requires Ok(s, at) && key >= 0 && Ranges(Contents(s, at)) && k in at
    ensures Inside(s, maxSize, key) == Some(at[k]) <==>
      Covers(Contents(s, at), k, key) && InReach(key, maxSize, k / BLOCK)
  {
    hide Blk, TableOk, Ok, Contents, InReach, Inside, Covers;
    if Covers(Contents(s, at), k, key) {
      if InReach(key, maxSize, k / BLOCK) {
        CoverFound(s, at, maxSize, k, key);
      } else {
        CoverIsNearest(s, at, k, key);
        NearestOutOfReach(s, maxSize, key, k / BLOCK);
      }
    } else if Inside(s, maxSize, key).Some? {
      var l := InsideCovers(s, at, maxSize, key);
      ContentsAt(s, at);
      assert s.store[at[l]].key == l && s.store[at[k]].key == k;
    }
  }

  lemma NearestOutOfReach(s: State, maxSize: int, key: Key, n: int)
    requires Nearest(s, key, n) && !InReach(key, maxSize, n)
    ensures Inside(s, maxSize, key) == None
  {
    hide Blk, HasBelow;
    forall m | Nearest(s, key, m) ensures m == n {
      assert m < n ==> !HasBelow(Blk(s.table, n), s.store, key);
      assert n < m ==> !HasBelow(Blk(s.table, m), s.store, key);
    }
  }

  lemma InsideCovers(s: State, at: map<Key, EntryRef>, maxSize: int, key: Key) returns (k: Key)
    requires Ok(s, at) && key >= 0 && Ranges(Contents(s, at)) && Inside(s, maxSize, key).Some?
    ensures k in at && Inside(s, maxSize, key) == Some(at[k]) && Covers(Contents(s, at), k, key)
  {
    hide Blk, TableOk, Ok, Contents;
    var n :| Nearest(s, key, n) && InReach(key, maxSize, n);
    InsideAt(s, maxSize, key, n);
    FirstHitSound(Blk(s.table, n), s.store, key);
    var e := Inside(s, maxSize, key).value;
    ListedKey(s, at, n, e);
    k := s.store[e].key;
    HitIsCovers(s, at, k, key);
  }

  /** What FindInside finds is a recorded key. */
  lemma InsideListed(s: State, at: map<Key, EntryRef>, maxSize: int, key: Key)
    requires Ok(s, at) && Inside(s, maxSize, key).Some?
    ensures var e := Inside(s, maxSize, key).value;
      e in s.store && s.store[e].key in at && at[s.store[e].key] == e
  {
    hide Blk, TableOk, Ok;
    var n :| Nearest(s, key, n) && InReach(key, maxSize, n);
    InsideAt(s, maxSize, key, n);
    FirstHitSound(Blk(s.table, n), s.store, key);
    ListedKey(s, at, n, Inside(s, maxSize, key).value);
  }

  /** With no range longer than `maxSize`, FindInside is a plain search: it finds the
      entry whose range contains `key` when there is one, and nothing otherwise. */
  lemma InsideIsSearch(s: State, at: map<Key, EntryRef>, maxSize: int, key: Key)
    requires Ok(s, at) && key >= 0 && Ranges(Contents(s, at)) && Bounded(Contents(s, at), maxSize)
    ensures forall k :: Covers(Contents(s, at), k, key) ==> k in at && Inside(s, maxSize, key) == Some(at[k])
    ensures (forall k :: k in at ==> !Covers(Contents(s, at), k, key)) ==> Inside(s, maxSize, key) == None
  {
    hide Blk, TableOk, Ok, Contents, Inside;
    ContentsAt(s, at);
    forall k | Covers(Contents(s, at), k, key) ensures k in at && Inside(s, maxSize, key) == Some(at[k]) {
      InsideExact(s, at, maxSize, key, k);
    }
    if Inside(s, maxSize, key).Some? { var k := InsideCovers(s, at, maxSize, key); }
  }

  lemma CoverFound(s: State, at: map<Key, EntryRef>, maxSize: int, k: Key, key: Key)
    requires Ok(s, at) && key >= 0 && Ranges(Contents(s, at)) && Covers(Contents(s, at), k, key)
    requires InReach(key, maxSize, k / BLOCK)
    ensures k in at && Inside(s, maxSize, key) == Some(at[k])
  {
    hide Blk, TableOk, Ok, Contents, Nearest, InReach, Inside, Hit;
    ContentsAt(s, at);
    var list := Blk(s.table, k / BLOCK);
    CoverIsNearest(s, at, k, key);
    InsideAt(s, maxSize, key, k / BLOCK);
    FirstHitSound(list, s.store, key);
    HitIsCovers(s, at, k, key);
    assert at[k] in list by { KeyListed(s, at, k); }
    var r := FirstHit(list, s.store, key);
    assert r.Some?;
    ListedKey(s, at, k / BLOCK, r.value);
    HitIsCovers(s, at, s.store[r.value].key, key);
    OneCover(Contents(s, at), k, s.store[r.value].key, key);
  }

  lemma KeyListed(s: State, at: map<Key, EntryRef>, k: Key)
    requires Ok(s, at) && k in at
    ensures at[k] in Blk(s.table, k / BLOCK)
  {
    assert KeyOk(s, k, at[k]);
  }

  lemma OneCover(m: map<Key, Value>, k: Key, l: Key, key: Key)
    requires Ranges(m) && Covers(m, k, key) && Covers(m, l, key)
    ensures k == l
  {
  }

  /** Interior search does not depend on the tag bits of the values. */
  ghost predicate SameSizes(store: Store, store': Store) {
    store'.Keys == store.Keys
    && forall e :: e in store ==> store'[e].key == store[e].key && store'[e].value.bytes == store[e].value.bytes
  }

  lemma {:induction false} FirstHitSame(list: seq<EntryRef>, store: Store, store': Store, key: Key)
    requires SameSizes(store, store')
    ensures FirstHit(list, store', key) == FirstHit(list, store, key)
  {
    if list != [] { FirstHitSame(list[1..], store, store', key); }
  }

  lemma InsideSame(s: State, s': State, maxSize: int, key: Key)
    requires s'.table == s.table && SameSizes(s.store, s'.store)
    ensures Inside(s', maxSize, key) == Inside(s, maxSize, key)
  {
    hide Blk;
    forall n ensures HasBelow(Blk(s.table, n), s'.store, key) == HasBelow(Blk(s.table, n), s.store, key) { }
    forall n ensures Nearest(s', key, n) == Nearest(s, key, n) { }
    if n :| Nearest(s, key, n) && InReach(key, maxSize, n) {
      InsideAt(s, maxSize, key, n);
      InsideAt(s', maxSize, key, n);
      FirstHitSame(Blk(s.table, n), s.store, s'.store, key);
    }
  }

  lemma BlockBack(num: int)
    requires num >= 0
    ensures var back := num / BLOCK * BLOCK + (BLOCK - 1) - BLOCK;
      && back / BLOCK == num / BLOCK - 1 && back == back / BLOCK * BLOCK + BLOCK - 1
      && (BlockId(num) != 0 ==> back >= 0 && ClusterId(back) == ClusterId(num))
  {
  }

  lemma ClusterBack(num: int)
    requires num >= CLUSTER
    ensures var back := num / CLUSTER * CLUSTER + (CLUSTER - 1) - CLUSTER;
      && 0 <= back < num && back / BLOCK == ClusterId(num) * CLUSTER_BLOCKS - 1
      && back == back / BLOCK * BLOCK + BLOCK - 1
  {
  }

  lemma AbsentIsQuiet(s: State, key: Key, num: int)
    requires |s.table| == HASH_SIZE && num >= 0 && Index(s.table[HashInt(ClusterId(num))], ClusterId(num)) < 0
    requires Quiet(s, key, num / BLOCK + 1)
    ensures Quiet(s, key, ClusterId(num) * CLUSTER_BLOCKS)
  {
    forall m {:trigger Blk(s.table, m)} | ClusterId(num) * CLUSTER_BLOCKS <= m <= num / BLOCK
      ensures Blk(s.table, m) == []
    {
      assert m / CLUSTER_BLOCKS == ClusterId(num);
    }
  }

  // --------------------------------------------------------------- the map itself

  class AddressMap {
    var s: State
    ghost var at: map<Key, EntryRef>

    ghost predicate Valid()
      reads this
    {
      Ok(s, at)
    }

    ghost function View(): map<Key, Value>
      reads this
    {
      Contents(s, at)
    }

    constructor ()
      ensures Valid() && View() == map[]
    {
      s := State(seq(HASH_SIZE, _ => []), map[], [], 0);
      at := map[];
    }

    /** Where in the hash table the cluster of an address is, with -1 for absent. */
    method FindCluster(address: int) returns (h: int, i: int)
      requires Valid() && address >= 0
      ensures |s.table| == HASH_SIZE && h == HashInt(ClusterId(address)) && i == Index(s.table[h], ClusterId(address))
    {
      hide Blk, TableOk, Ok;
      TableIsOk(s, at);
      var id := ClusterId(address);
      h, i := HashInt(id), 0;
      var chain := s.table[h];
      while i < |chain| && chain[i].id != id
        invariant 0 <= i <= |chain|
        invariant Index(chain, id) == if Index(chain[i..], id) < 0 then -1 else i + Index(chain[i..], id)
      {
        assert chain[i..][1..] == chain[i + 1..];
        i := i + 1;
      }
      if i == |chain| { i := -1; }
    }

    /** FindCluster with `create`: an absent cluster is added, empty, to its chain. */
    method FindOrCreateCluster(address: int) returns (h: int, i: int)
      requires Valid() && address >= 0
      modifies this`s
      ensures Valid() && View() == old(View()) && s == old(s).(table := s.table)
      ensures forall n :: Blk(s.table, n) == Blk(old(s).table, n)
      ensures |s.table| == HASH_SIZE && h == HashInt(ClusterId(address)) && i == Index(s.table[h], ClusterId(address))
      ensures i >= 0
    {
      hide Blk, TableOk, Ok, Contents;
      h, i := FindCluster(address);
      if i < 0 {
        TableIsOk(s, at);
        var id := ClusterId(address);
        ClusterAdded(s.table, id);
        var table := s.table[h := [Cluster(id, seq(CLUSTER_BLOCKS, _ => []))] + s.table[h]];
        TableOnly(s, at, table);
        s := s.(table := table);
        i := 0;
      }
    }

    /** The position of `key` in a list of entries, or -1. */
    method Search(list: seq<EntryRef>, key: Key) returns (j: int)
      requires forall i :: 0 <= i < |list| ==> list[i] in s.store
      ensures -1 <= j < |list| && (j >= 0 ==> s.store[list[j]].key == key)
      ensures j == -1 ==> forall i :: 0 <= i < |list| ==> s.store[list[i]].key != key
    {
      j := 0;
      while j < |list|
        invariant 0 <= j <= |list| && forall i :: 0 <= i < j ==> s.store[list[i]].key != key
      {
        if s.store[list[j]].key == key { return; }
        j := j + 1;
      }
      j := -1;
    }

    method FindMutable(key: Key) returns (res: Option<EntryRef>)
      requires Valid() && key >= 0
      ensures res == if key in at then Some(at[key]) else None
      ensures View().Keys == at.Keys
      ensures key in at ==> at[key] in s.store && s.store[at[key]] == Entry(key, View()[key])
    {
      hide Blk, TableOk, Ok, Contents, Index, HashInt, BlockId, ClusterId;
      ContentsAt(s, at);
      var h, i := FindCluster(key);
      FoundBlock(s, at, key, h, i);
      if i >= 0 {
        var list := s.table[h][i].blocks[BlockId(key)];
        var j := Search(list, key);
        KeyFound(s, at, key, j);
        if j >= 0 { return Some(list[j]); }
      } else {
        KeyFound(s, at, key, -1);
      }
      return None;
    }

    /** Write through the pointer to a recorded value. */
    method SetValue(e: EntryRef, v: Value, ghost key: Key)
      requires Valid() && key in at && at[key] == e
      modifies this`s
      ensures Valid() && View() == old(View())[key := v] && e in old(s.store) && s == WithValue(old(s), e, v)
    {
      hide Blk, TableOk, Contents, Ok;
      EntryStored(s, at, key);
      SetOk(s, at, key, v);
      s := s.(store := s.store[e := s.store[e].(value := v)]);
    }

    method Insert(key: Key, value: Value)
      requires Valid() && key >= 0
      modifies this
      ensures Valid() && View() == old(View())[key := value]
      ensures key in old(at) ==> at == old(at)
    {
      hide Blk, TableOk, Ok, Contents, Index, HashInt, BlockId, ClusterId;
      var h, i := FindOrCreateCluster(key);
      FoundBlock(s, at, key, h, i);
      var block := BlockId(key);
      var list := s.table[h][i].blocks[block];
      var j := Search(list, key);
      KeyFound(s, at, key, j);
      if j >= 0 {
        SetValue(list[j], value, key);
        return;
      }
      if s.free == [] {
        RefillOk(s, at);
        s := Refilled(s);
      }
      var e := s.free[0];
      var table := WithBlock(s.table, h, i, block, [e] + list);
      BlockReplaced(s.table, key, h, i, [e] + list);
      PushOk(s, at, table, key, value);
      s := State(table, s.store[e := Entry(key, value)], s.free[1..], s.next);
      at := at[key := e];
    }

    /** One block of FindInside. */
    method ScanBlock(list: seq<EntryRef>, key: Key) returns (res: Option<EntryRef>, smaller: bool)
      requires forall i :: 0 <= i < |list| ==> list[i] in s.store
      ensures res == FirstHit(list, s.store, key)
      ensures res.None? ==> smaller == HasBelow(list, s.store, key)
    {
      hide Hit;
      smaller := false;
      var j := 0;
      while j < |list|
        invariant 0 <= j <= |list| && FirstHit(list, s.store, key) == FirstHit(list[j..], s.store, key)
        invariant smaller <==> exists i :: 0 <= i < j && s.store[list[i]].key <= key
      {
        assert list[j..][1..] == list[j + 1..];
        var x := s.store[list[j]];
        HitBelow(x, key);
        if x.key <= key {
          if Hit(x, key) { return Some(list[j]), smaller; }
          smaller := true;
        }
        j := j + 1;
      }
      res := None;
    }

    /** The entry whose range contains `key`, looked for backwards block by block and
        cluster by cluster for at most about `maxSize` bytes. */
    method FindInside(maxSize: int, key: Key) returns (res: Option<EntryRef>)
      requires Valid() && key >= 0
      ensures res == Inside(s, maxSize, key)
    {
      hide Blk, TableOk, Ok, FirstHit, HasBelow, Inside, Index, HashInt, Quiet, Nearest;
      NothingSeen(s, key);
      var num := key;
      while true
        invariant 0 <= num <= key && Quiet(s, key, num / BLOCK + 1) && InReach(key, maxSize, num / BLOCK)
        decreases num
      {
        ghost var start := num;
        var h, i := FindCluster(num);
        if i >= 0 {
          while true
            invariant 0 <= num <= start && ClusterId(num) == ClusterId(start)
            invariant Quiet(s, key, num / BLOCK + 1) && InReach(key, maxSize, num / BLOCK)
            decreases num
          {
            FoundBlock(s, at, num, h, i);
            var block := BlockId(num);
            var smaller;
            res, smaller := ScanBlock(s.table[h][i].blocks[block], key);
            if res.Some? || smaller {
              BlockDecides(s, maxSize, key, num / BLOCK);
              return;
            }
            OneMoreQuiet(s, key, num / BLOCK);
            if block == 0 { break; }
            BlockBack(num);
            num := num / BLOCK * BLOCK + (BLOCK - 1) - BLOCK;
            if key - num > maxSize {
              InsideNowhere(s, maxSize, key, num / BLOCK + 1);
              return None;
            }
          }
        } else {
          AbsentIsQuiet(s, key, num);
        }
        assert Quiet(s, key, ClusterId(num) * CLUSTER_BLOCKS);
        if num < CLUSTER {
          InsideNowhere(s, maxSize, key, 0);
          return None;
        }
        ClusterBack(num);
        num := num / CLUSTER * CLUSTER + (CLUSTER - 1) - CLUSTER;
        if key - num > maxSize {
          InsideNowhere(s, maxSize, key, num / BLOCK + 1);
          return None;
        }
      }
    }

    /** Iterate: the entries in the order in which the callback sees them. */
    method Iterate() returns (visited: seq<EntryRef>)
      requires Valid()
      ensures NoRepeats(visited)
      ensures forall e :: e in visited ==> e in s.store && s.store[e].key in at && at[s.store[e].key] == e
      ensures forall k :: k in at ==> at[k] in visited
    {
      hide Blk, TableOk, Ok, HashInt, Index;
      TableIsOk(s, at);
      visited := [];
      ghost var ids: set<int> := {};
      var h := 0;
      NoneVisited(s, at);
      while h < HASH_SIZE
        invariant 0 <= h <= HASH_SIZE && Visited(s, at, visited, ids, 0, -1) && IdsBefore(s.table, ids, h, 0)
      {
        var i := 0;
        while i < |s.table[h]|
          invariant 0 <= i <= |s.table[h]| && Visited(s, at, visited, ids, 0, -1) && IdsBefore(s.table, ids, h, i)
        {
          var c := s.table[h][i];
          ClusterNew(s.table, ids, h, i);
          var b := 0;
          NoBlocksYet(s, at, visited, ids, c.id);
          while b < CLUSTER_BLOCKS
            invariant 0 <= b <= CLUSTER_BLOCKS && Visited(s, at, visited, ids, b, c.id)
          {
            BlockAt(s.table, h, i, b);
            BlockVisited(s, at, visited, ids, c.id, b);
            visited := visited + c.blocks[b];
            b := b + 1;
          }
          ClusterVisited(s, at, visited, ids, c.id);
          ClusterDone(s.table, ids, h, i);
          ids := ids + {c.id};
          i := i + 1;
        }
        ChainDone(s.table, ids, h);
        h := h + 1;
      }
      AllVisited(s, at, visited, ids);
    }

    method FindAndRemove(key: Key) returns (res: Option<Value>)
      requires Valid() && key >= 0
      modifies this
      ensures Valid() && View() == old(View()) - {key}
      ensures res == if key in old(View()) then Some(old(View())[key]) else None
    {
      hide Blk, TableOk, Ok, Contents, Index, HashInt, BlockId, ClusterId, WithBlock;
      ContentsAt(s, at);
      var h, i := FindCluster(key);
      FoundBlock(s, at, key, h, i);
      if i >= 0 {
        var block := BlockId(key);
        var list := s.table[h][i].blocks[block];
        var j := Search(list, key);
        KeyFound(s, at, key, j);
        if j >= 0 {
          var e := list[j];
          res := Some(s.store[e].value);
          var table := WithBlock(s.table, h, i, block, list[..j] + list[j + 1..]);
          BlockReplaced(s.table, key, h, i, list[..j] + list[j + 1..]);
          DropOk(s, at, table, key, j);
          s := State(table, s.store, [e] + s.free, s.next);
          at := at - {key};
          return;
        }
      } else {
        KeyFound(s, at, key, -1);
      }
      res := None;
      assert View() - {key} == View();
    }
  }

  // ------------------------------------------------------------------ iteration

  /** Blocks of the clusters `ids`, and the first `b` blocks of cluster `id`. */
  ghost predicate Seen(n: int, ids: set<int>, b: int, id: int) {
    n >= 0 && (n / CLUSTER_BLOCKS in ids || (n / CLUSTER_BLOCKS == id && n % CLUSTER_BLOCKS < b))
  }

  /** `visited` holds the entries of exactly the seen blocks, each once. */
  ghost predicate Visited(s: State, at: map<Key, EntryRef>, visited: seq<EntryRef>, ids: set<int>, b: int, id: int) {
    && NoRepeats(visited) && id !in ids
    && (forall e :: e in visited ==> e in s.store && InSeenBlock(s, e, ids, b, id))
    && (forall n, e {:trigger Listed(s.table, n, e)} :: Listed(s.table, n, e) && Seen(n, ids, b, id) ==> e in visited)
  }

  ghost predicate InSeenBlock(s: State, e: EntryRef, ids: set<int>, b: int, id: int)
    requires e in s.store
  {
    var n := s.store[e].key / BLOCK;
    s.store[e].key >= 0 && Listed(s.table, n, e) && Seen(n, ids, b, id)
  }

  /** `ids` are the clusters in chains before `h` and at positions before `i` of chain `h`. */
  ghost predicate IdsBefore(table: Table, ids: set<int>, h: int, i: int) {
    forall id {:trigger id in ids} :: id in ids <==>
      id >= 0 && |table| == HASH_SIZE && Index(table[HashInt(id)], id) >= 0
      && (HashInt(id) < h || (HashInt(id) == h && Index(table[h], id) < i))
  }

  lemma NoneVisited(s: State, at: map<Key, EntryRef>)
    requires TableOk(s.table)
    ensures Visited(s, at, [], {}, 0, -1) && IdsBefore(s.table, {}, 0, 0)
  {
  }

  lemma ClusterNew(table: Table, ids: set<int>, h: int, i: int)
    requires TableOk(table) && 0 <= h < HASH_SIZE && 0 <= i < |table[h]| && IdsBefore(table, ids, h, i)
    ensures table[h][i].id !in ids && table[h][i].id >= 0 && |table[h][i].blocks| == CLUSTER_BLOCKS
  {
    assert ChainOk(table[h], h) && ClusterOk(table[h][i], h);
    IndexIs(table[h], h, i);
  }

  lemma NoBlocksYet(s: State, at: map<Key, EntryRef>, visited: seq<EntryRef>, ids: set<int>, id: int)
    requires Visited(s, at, visited, ids, 0, -1) && id !in ids
    ensures Visited(s, at, visited, ids, 0, id)
  {
    hide Blk;
  }

  lemma NoRepeatsJoin(a: seq<EntryRef>, b: seq<EntryRef>)
    requires NoRepeats(a) && NoRepeats(b) && forall i :: 0 <= i < |b| ==> b[i] !in a
    ensures NoRepeats(a + b)
  {
    forall i, j | 0 <= i < j < |a + b| ensures (a + b)[i] != (a + b)[j] {
      if i < |a| <= j { assert b[j - |a|] !in a && (a + b)[i] == a[i]; }
    }
  }

  lemma BlockVisited(s: State, at: map<Key, EntryRef>, visited: seq<EntryRef>, ids: set<int>, id: int, b: int)
    requires Ok(s, at) && Visited(s, at, visited, ids, b, id) && id >= 0 && 0 <= b < CLUSTER_BLOCKS
    ensures Visited(s, at, visited + Blk(s.table, BlockNumber(id, b)), ids, b + 1, id)
  {
    hide Blk, TableOk;
    var n := BlockNumber(id, b);
    var list := Blk(s.table, n);
    assert n / CLUSTER_BLOCKS == id && n % CLUSTER_BLOCKS == b && n >= 0;
    assert NoRepeats(list);
    forall e | e in list
      ensures e in s.store && s.store[e].key >= 0 && s.store[e].key / BLOCK == n && Listed(s.table, n, e)
      ensures e !in visited
    {
      assert Listed(s.table, n, e);
      assert EntryOk(s, at, n, e);
      assert !Seen(n, ids, b, id);
    }
    forall i | 0 <= i < |list| ensures list[i] !in visited { assert list[i] in list; }
    NoRepeatsJoin(visited, list);
    forall e | e in visited + list ensures e in s.store && InSeenBlock(s, e, ids, b + 1, id) {
      if e in visited { assert InSeenBlock(s, e, ids, b, id); } else { assert Seen(n, ids, b + 1, id); }
    }
    forall m, e {:trigger Listed(s.table, m, e)} | Listed(s.table, m, e) && Seen(m, ids, b + 1, id)
      ensures e in visited + list
    {
      if m / CLUSTER_BLOCKS == id && m % CLUSTER_BLOCKS == b { assert m == n; } else { assert Seen(m, ids, b, id); }
    }
  }

  lemma ClusterVisited(s: State, at: map<Key, EntryRef>, visited: seq<EntryRef>, ids: set<int>, id: int)
    requires Visited(s, at, visited, ids, CLUSTER_BLOCKS, id) && id >= 0 && -1 !in ids
    ensures Visited(s, at, visited, ids + {id}, 0, -1)
  {
    hide Blk;
  }

  lemma ClusterDone(table: Table, ids: set<int>, h: int, i: int)
    requires TableOk(table) && 0 <= h < HASH_SIZE && 0 <= i < |table[h]| && IdsBefore(table, ids, h, i)
    ensures IdsBefore(table, ids + {table[h][i].id}, h, i + 1) && -1 !in ids
  {
    assert ChainOk(table[h], h) && ClusterOk(table[h][i], h);
    IndexIs(table[h], h, i);
  }

  lemma ChainDone(table: Table, ids: set<int>, h: int)
    requires 0 <= h < |table| && IdsBefore(table, ids, h, |table[h]|)
    ensures IdsBefore(table, ids, h + 1, 0)
  {
  }

  lemma AllVisited(s: State, at: map<Key, EntryRef>, visited: seq<EntryRef>, ids: set<int>)
    requires Ok(s, at) && Visited(s, at, visited, ids, 0, -1) && IdsBefore(s.table, ids, HASH_SIZE, 0)
    ensures forall e :: e in visited ==> e in s.store && s.store[e].key in at && at[s.store[e].key] == e
    ensures forall k :: k in at ==> at[k] in visited
  {
    hide TableOk;
    forall e | e in visited ensures e in s.store && s.store[e].key in at && at[s.store[e].key] == e {
      ListedKey(s, at, s.store[e].key / BLOCK, e);
    }
    forall k | k in at ensures at[k] in visited {
      assert KeyOk(s, k, at[k]);
      var n := k / BLOCK;
      assert n / CLUSTER_BLOCKS in ids;
      assert Seen(n, ids, 0, -1);
    }
  }

  lemma HitBelow(x: Entry, key: Key)
    ensures Hit(x, key) ==> x.key <= key
  {
  }

  lemma NothingSeen(s: State, key: Key)
    ensures Quiet(s, key, key / BLOCK + 1)
  {
  }

  lemma OneMoreQuiet(s: State, key: Key, n: int)
    requires Quiet(s, key, n + 1) && !HasBelow(Blk(s.table, n), s.store, key)
    ensures Quiet(s, key, n)
  {
    hide Blk, HasBelow;
  }

  /** The first block with a key at or below `key` settles the search. */
  lemma BlockDecides(s: State, maxSize: int, key: Key, n: int)
    requires Quiet(s, key, n + 1) && InReach(key, maxSize, n) && 0 <= n <= key / BLOCK
    requires FirstHit(Blk(s.table, n), s.store, key).Some? || HasBelow(Blk(s.table, n), s.store, key)
    ensures Inside(s, maxSize, key) == FirstHit(Blk(s.table, n), s.store, key)
  {
    hide Blk;
    FirstHitSound(Blk(s.table, n), s.store, key);
    InsideAt(s, maxSize, key, n);
  }

  lemma TableIsOk(s: State, at: map<Key, EntryRef>)
    requires Ok(s, at)
    ensures TableOk(s.table) && |s.table| == HASH_SIZE
  {
  }

  lemma EntryStored(s: State, at: map<Key, EntryRef>, key: Key)
    requires Ok(s, at) && key in at
    ensures at[key] in s.store && s.store[at[key]].key == key && key in Contents(s, at)
  {
    assert KeyOk(s, key, at[key]);
  }

  /** Where FindCluster leads: to the list of the key's block, or to nothing. */
  lemma FoundBlock(s: State, at: map<Key, EntryRef>, key: Key, h: int, i: int)
    requires Ok(s, at) && key >= 0 && h == HashInt(ClusterId(key))
    requires |s.table| == HASH_SIZE && i == Index(s.table[h], ClusterId(key))
    ensures TableOk(s.table) && 0 <= BlockId(key) < CLUSTER_BLOCKS
    ensures i >= 0 ==>
      && |s.table[h][i].blocks| == CLUSTER_BLOCKS
      && s.table[h][i].blocks[BlockId(key)] == Blk(s.table, key / BLOCK)
    ensures i < 0 ==> Blk(s.table, key / BLOCK) == []
    ensures forall j :: 0 <= j < |Blk(s.table, key / BLOCK)| ==> Blk(s.table, key / BLOCK)[j] in s.store
    ensures key in at ==> at[key] in s.store && s.store[at[key]].key == key
  {
    KeyBlock(key);
    BlockStored(s, at, key / BLOCK);
    if key in at { EntryStored(s, at, key); }
    if i >= 0 { BlockAt(s.table, h, i, BlockId(key)); }
  }

  lemma BlockReplaced(table: Table, key: Key, h: int, i: int, list: seq<EntryRef>)
    requires TableOk(table) && key >= 0 && h == HashInt(ClusterId(key)) && |table| == HASH_SIZE
    requires i == Index(table[h], ClusterId(key)) && i >= 0 && 0 <= BlockId(key) < |table[h][i].blocks|
    ensures var table' := WithBlock(table, h, i, BlockId(key), list);
      TableOk(table') && Blk(table', key / BLOCK) == list && BlocksAgree(table, table', key / BLOCK)
  {
    KeyBlock(key);
    BlockUpdate(table, h, i, BlockId(key), list);
  }

  /** An object of 4096 bytes, searched for with the default offset limit of 1024: a pointer
      2000 bytes into it is not resolved. */
  method InteriorPointerMissed() returns (m: AddressMap, res: Option<EntryRef>)
    ensures fresh(m) && m.Valid() && Ranges(m.View()) && Covers(m.View(), 8192, 10192) && res.None?
  {
    hide Ok, Contents, Inside, Blk;
    m := new AddressMap();
    m.Insert(8192, Value(0, 4096));
    res := m.FindInside(1024, 10192);
    ContentsAt(m.s, m.at);
    if res.Some? {
      var k := InsideCovers(m.s, m.at, 1024, 10192);
      InsideExact(m.s, m.at, 1024, 10192, k);
    }
  }
}
