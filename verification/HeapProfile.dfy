/** The heap profile table: one bucket of statistics per stack trace, a tagged value per
    recorded allocation, live bits, and snapshots of what is not live. */
module HeapProfiles {
  import opened Common
  import opened AddressMaps

  const BUCKET_CHAINS: int := 179999

  // ------------------------------------------------------------------ tag bits

  // bucket_rep is a bucket address, a multiple of four, plus live (1) and ignore (2).

  function BucketOf(v: Value): int { v.rep - v.rep % 4 }

  predicate IsLive(v: Value) { v.rep % 2 == 1 }

  predicate IsIgnored(v: Value) { v.rep / 2 % 2 == 1 }

  function SetLive(v: Value, l: bool): Value { v.(rep := v.rep - v.rep % 2 + (if l then 1 else 0)) }

  function SetIgnore(v: Value, r: bool): Value { v.(rep := v.rep - v.rep / 2 % 2 * 2 + (if r then 2 else 0)) }

  /** The three parts of a tagged pointer are independent. */
  lemma TagsIndependent(v: Value, b: bool)
    ensures IsLive(SetLive(v, b)) == b && IsIgnored(SetLive(v, b)) == IsIgnored(v)
    ensures BucketOf(SetLive(v, b)) == BucketOf(v)
    ensures IsIgnored(SetIgnore(v, b)) == b && IsLive(SetIgnore(v, b)) == IsLive(v)
    ensures BucketOf(SetIgnore(v, b)) == BucketOf(v)
    ensures SetLive(v, IsLive(v)) == v && SetIgnore(v, IsIgnored(v)) == v
  {
    hide IsLive, IsIgnored, SetLive, SetIgnore, BucketOf;
    LiveBit(v, b);
    IgnoreBit(v, b);
    LiveBit(v, IsLive(v));
    IgnoreBit(v, IsIgnored(v));
  }

  lemma LiveBit(v: Value, b: bool)
    ensures IsLive(SetLive(v, b)) == b && IsIgnored(SetLive(v, b)) == IsIgnored(v)
    ensures BucketOf(SetLive(v, b)) == BucketOf(v)
    ensures IsLive(v) == b ==> SetLive(v, b) == v
  {
    var q, r := v.rep / 4, v.rep % 4;
    TagParts(q, r);
    TagParts(q, r - r % 2 + (if b then 1 else 0));
  }

  lemma IgnoreBit(v: Value, b: bool)
    ensures IsIgnored(SetIgnore(v, b)) == b && IsLive(SetIgnore(v, b)) == IsLive(v)
    ensures BucketOf(SetIgnore(v, b)) == BucketOf(v)
    ensures IsIgnored(v) == b ==> SetIgnore(v, b) == v
  {
    var q, r := v.rep / 4, v.rep % 4;
    TagParts(q, r);
    TagParts(q, r % 2 + (if b then 2 else 0));
  }

  lemma TagParts(q: int, r: int)
    requires 0 <= r < 4
    ensures (4 * q + r) % 4 == r && (4 * q + r) % 2 == r % 2 && (4 * q + r) / 2 % 2 == r / 2
  {
    assert (4 * q + r) / 2 == 2 * q + r / 2;
  }

  // ------------------------------------------------------------------- buckets

  datatype Stats = Stats(allocs: int, frees: int, allocSize: int, freeSize: int) {
    function Plus(s: Stats): Stats {
      Stats(allocs + s.allocs, frees + s.frees, allocSize + s.allocSize, freeSize + s.freeSize)
    }
  }

  type Trace = seq<bv64>

  datatype Bucket = Bucket(hash: bv64, stack: Trace, stats: Stats)

  type Buckets = map<int, Bucket>

  /** `next` is where the next bucket is allocated. */
  datatype Profile = Profile(buckets: Buckets, chains: seq<seq<int>>, next: int, total: Stats)

  function Mix(h: bv64, key: bv64): bv64 {
    var h1 := h + key;
    var h2 := h1 + (h1 << 10);
    h2 ^ (h2 >> 6)
  }

  function MixAll(h: bv64, stack: Trace): bv64
    decreases |stack|
  {
    if stack == [] then h else MixAll(Mix(h, stack[0]), stack[1..])
  }

  function TraceHash(stack: Trace): bv64 {
    var h := MixAll(0, stack);
    var h1 := h + (h << 3);
    h1 ^ (h1 >> 11)
  }

  function ChainIndex(hash: bv64): (i: int)
    ensures 0 <= i < BUCKET_CHAINS
  {
    hash as int % 0x1_0000_0000 % BUCKET_CHAINS
  }

  ghost predicate BucketOk(p: Profile, b: int) {
    && b in p.buckets && b % 4 == 0 && b < p.next && p.buckets[b].hash == TraceHash(p.buckets[b].stack)
    && |p.chains| == BUCKET_CHAINS && b in p.chains[ChainIndex(p.buckets[b].hash)]
  }

  /** Every bucket is on the chain its trace selects, and no two have the same trace. */
  ghost predicate ProfileOk(p: Profile) {
    && |p.chains| == BUCKET_CHAINS && p.next % 4 == 0
    && (forall b {:trigger BucketOk(p, b)} :: b in p.buckets ==> BucketOk(p, b))
    && (forall i, b :: 0 <= i < BUCKET_CHAINS && b in p.chains[i] ==> b in p.buckets)
    && (forall b, c :: b in p.buckets && c in p.buckets && p.buckets[b].stack == p.buckets[c].stack ==> b == c)
    && p.total == SumStats(p.buckets)
  }

  lemma NonEmpty(s: set<int>)
    requires |s| != 0
    ensures exists x :: x in s
  {
    assert (forall x :: x !in s) ==> s == {};
  }

  ghost function SumStats(m: Buckets): Stats
    decreases |m|
  {
    if |m| == 0 then Stats(0, 0, 0, 0) else
      var b := Pick(m.Keys);
      m[b].stats.Plus(SumStats(m - {b}))
  }

  ghost function Pick(s: set<int>): (x: int)
    requires |s| != 0
    ensures x in s
  {
    NonEmpty(s);
    var x :| x in s;
    x
  }

  lemma PlusSwap(x: Stats, y: Stats, z: Stats)
    ensures x.Plus(y.Plus(z)) == y.Plus(x.Plus(z))
  {
  }

  lemma {:induction false} SumDrop(m: Buckets, b: int)
    requires b in m
    ensures SumStats(m) == m[b].stats.Plus(SumStats(m - {b}))
    decreases |m|
  {
    hide Stats.Plus;
    var c := Pick(m.Keys);
    if c != b {
      SumDrop(m - {c}, b);
      SumDrop(m - {b}, c);
      PlusSwap(m[c].stats, m[b].stats, SumStats(m - {b} - {c}));
      assert m - {c} - {b} == m - {b} - {c};
    }
  }

  lemma SumPut(m: Buckets, b: int, x: Bucket)
    ensures SumStats(m[b := x]) == x.stats.Plus(SumStats(m - {b}))
  {
    SumDrop(m[b := x], b);
    assert m[b := x] - {b} == m - {b};
  }

  // ---------------------------------------------------------------- accounting

  datatype Tally = Tally(count: int, bytes: int) {
    function Plus(t: Tally): Tally { Tally(count + t.count, bytes + t.bytes) }
  }

  function Share(v: Value, b: Option<int>): Tally {
    if b.None? || BucketOf(v) == b.value then Tally(1, v.bytes) else Tally(0, 0)
  }

  /** Number and total size of the allocations tagged with bucket `b`, or of all. */
  ghost function TallyOf(m: map<Key, Value>, b: Option<int>): Tally
    decreases |m|
  {
    if |m| == 0 then Tally(0, 0) else
      var k := Pick(m.Keys);
      Share(m[k], b).Plus(TallyOf(m - {k}, b))
  }

  lemma TallySwap(x: Tally, y: Tally, z: Tally)
    ensures x.Plus(y.Plus(z)) == y.Plus(x.Plus(z))
  {
  }

  lemma {:induction false} TallyDrop(m: map<Key, Value>, b: Option<int>, k: Key)
    requires k in m
    ensures TallyOf(m, b) == Share(m[k], b).Plus(TallyOf(m - {k}, b))
    decreases |m|
  {
    hide Share, Tally.Plus;
    var c := Pick(m.Keys);
    if c != k {
      TallyDrop(m - {c}, b, k);
      TallyDrop(m - {k}, b, c);
      TallySwap(Share(m[c], b), Share(m[k], b), TallyOf(m - {k} - {c}, b));
      assert m - {c} - {k} == m - {k} - {c};
    }
  }

  lemma TallyPut(m: map<Key, Value>, b: Option<int>, k: Key, v: Value)
    ensures TallyOf(m[k := v], b) == Share(v, b).Plus(TallyOf(m - {k}, b))
  {
    hide Share, TallyOf;
    TallyDrop(m[k := v], b, k);
    assert m[k := v] - {k} == m - {k};
  }

  function Outstanding(s: Stats): Tally { Tally(s.allocs - s.frees, s.allocSize - s.freeSize) }

  /** Each bucket's statistics account for exactly the allocations tagged with it. */
  ghost predicate Balanced(buckets: Buckets, m: map<Key, Value>) {
    && (forall k :: k in m ==> BucketOf(m[k]) in buckets)
    && (forall b :: b in buckets ==> Outstanding(buckets[b].stats) == TallyOf(m, Some(b)))
  }

  function Charged(buckets: Buckets, b: int, d: Stats): Buckets
    requires b in buckets
  {
    buckets[b := buckets[b].(stats := buckets[b].stats.Plus(d))]
  }

  /** Recording an allocation keeps the accounts if and only if the pointer was not
      recorded already: Insert forgets an old value without crediting its bucket. */
  lemma RecordBalance(buckets: Buckets, m: map<Key, Value>, b: int, ptr: Key, bytes: int)
    requires Balanced(buckets, m) && b in buckets && b % 4 == 0
    ensures Balanced(Charged(buckets, b, Stats(1, 0, bytes, 0)), m[ptr := Value(b, bytes)]) <==> ptr !in m
  {
    hide TallyOf;
    var v := Value(b, bytes);
    assert BucketOf(v) == b;
    hide BucketOf;
    var buckets' := Charged(buckets, b, Stats(1, 0, bytes, 0));
    if ptr !in m {
      assert m - {ptr} == m;
      forall c | c in buckets' ensures Outstanding(buckets'[c].stats) == TallyOf(m[ptr := v], Some(c)) {
        TallyPut(m, Some(c), ptr, v);
      }
    } else {
      var c := BucketOf(m[ptr]);
      TallyPut(m, Some(c), ptr, v);
      TallyDrop(m, Some(c), ptr);
    }
  }

  lemma FreeBalance(buckets: Buckets, m: map<Key, Value>, ptr: Key)
    requires Balanced(buckets, m) && ptr in m && BucketOf(m[ptr]) in buckets
    ensures Balanced(Charged(buckets, BucketOf(m[ptr]), Stats(0, 1, 0, m[ptr].bytes)), m - {ptr})
  {
    hide TallyOf, BucketOf;
    var buckets' := Charged(buckets, BucketOf(m[ptr]), Stats(0, 1, 0, m[ptr].bytes));
    forall c | c in buckets' ensures Outstanding(buckets'[c].stats) == TallyOf(m - {ptr}, Some(c)) {
      TallyDrop(m, Some(c), ptr);
    }
  }

  /** Values that differ only in tag bits. */
  ghost predicate Retagged(m: map<Key, Value>, m': map<Key, Value>) {
    m'.Keys == m.Keys && forall k :: k in m ==> BucketOf(m'[k]) == BucketOf(m[k]) && m'[k].bytes == m[k].bytes
  }

  lemma {:induction false} TallyRetagged(m: map<Key, Value>, m': map<Key, Value>, b: Option<int>)
    requires Retagged(m, m')
    ensures TallyOf(m', b) == TallyOf(m, b)
    decreases |m|
  {
    hide BucketOf;
    assert |m'| == |m| by { assert |m.Keys| == |m'.Keys|; }
    if |m| != 0 {
      var k := Pick(m.Keys);
      TallyDrop(m, b, k);
      TallyDrop(m', b, k);
      TallyRetagged(m - {k}, m' - {k}, b);
    }
  }

  lemma BalancedRetagged(buckets: Buckets, m: map<Key, Value>, m': map<Key, Value>)
    requires Balanced(buckets, m) && Retagged(m, m')
    ensures Balanced(buckets, m')
  {
    hide TallyOf, BucketOf;
    forall b | b in buckets ensures Outstanding(buckets[b].stats) == TallyOf(m', Some(b)) {
      TallyRetagged(m, m', Some(b));
    }
  }

  lemma ChargedOk(p: Profile, b: int, d: Stats)
    requires ProfileOk(p) && b in p.buckets
    ensures ProfileOk(p.(buckets := Charged(p.buckets, b, d), total := p.total.Plus(d)))
  {
    hide TraceHash, ChainIndex, SumStats;
    var p' := p.(buckets := Charged(p.buckets, b, d), total := p.total.Plus(d));
    forall c | c in p'.buckets ensures BucketOk(p', c) { assert BucketOk(p, c); }
    SumDrop(p.buckets, b);
    SumPut(p.buckets, b, p'.buckets[b]);
  }

  /** GetBucket's new bucket. */
  function WithBucket(p: Profile, stack: Trace): Profile
    requires |p.chains| == BUCKET_CHAINS
  {
    var hash := TraceHash(stack);
    var i := ChainIndex(hash);
    p.(buckets := p.buckets[p.next := Bucket(hash, stack, Stats(0, 0, 0, 0))],
       chains := p.chains[i := [p.next] + p.chains[i]], next := p.next + 4)
  }

  lemma WithBucketOk(p: Profile, stack: Trace)
    requires ProfileOk(p) && forall b :: b in p.buckets ==> p.buckets[b].stack != stack
    ensures ProfileOk(WithBucket(p, stack)) && p.next !in p.buckets
  {
    hide TraceHash, ChainIndex, SumStats;
    var p' := WithBucket(p, stack);
    forall b | b in p.buckets ensures b < p.next { assert BucketOk(p, b); }
    forall i, b | 0 <= i < BUCKET_CHAINS && b in p'.chains[i] ensures b in p'.buckets {
      if b != p.next { assert b in p.chains[i]; }
    }
    forall b | b in p'.buckets ensures BucketOk(p', b) { if b != p.next { assert BucketOk(p, b); } }
    SumPut(p.buckets, p.next, p'.buckets[p.next]);
    assert p.buckets - {p.next} == p.buckets;
  }

  lemma NextIsFree(p: Profile)
    requires ProfileOk(p)
    ensures p.next !in p.buckets && |p.chains| == BUCKET_CHAINS
  {
    assert p.next in p.buckets ==> BucketOk(p, p.next);
  }

  /** A bucket that accounts for nothing changes no account. */
  lemma WithBucketBalanced(p: Profile, stack: Trace, m: map<Key, Value>)
    requires p.next !in p.buckets && |p.chains| == BUCKET_CHAINS && Balanced(p.buckets, m)
    ensures Balanced(WithBucket(p, stack).buckets, m)
  {
    hide TraceHash, ChainIndex, Balanced;
    AddedBalanced(p.buckets, m, p.next, Bucket(TraceHash(stack), stack, Stats(0, 0, 0, 0)));
  }

  lemma AddedBalanced(buckets: Buckets, m: map<Key, Value>, b: int, x: Bucket)
    requires Balanced(buckets, m) && b !in buckets && Outstanding(x.stats) == Tally(0, 0)
    ensures Balanced(buckets[b := x], m)
  {
    hide BucketOf, TallyOf, Outstanding;
    NoneTagged(m, b);
  }

  lemma {:induction false} NoneTagged(m: map<Key, Value>, b: int)
    requires forall k :: k in m ==> BucketOf(m[k]) != b
    ensures TallyOf(m, Some(b)) == Tally(0, 0)
    decreases |m|
  {
    hide BucketOf;
    if |m| != 0 { NoneTagged(m - {Pick(m.Keys)}, b); }
  }

  // ------------------------------------------------------------------ snapshots

  /** What a snapshot keeps: not live, and not in the base snapshot. */
  ghost predicate Leaks(m: map<Key, Value>, base: map<Key, Value>, k: Key) { k in m && !IsLive(m[k]) && k !in base }

  ghost function LeakMap(m: map<Key, Value>, base: map<Key, Value>, done: set<Key>): map<Key, Value> {
    map k | k in m && k in done && Leaks(m, base, k) :: m[k]
  }

  /** The recorded values, with the live bits of the keys in `done` cleared. */
  ghost function Cleared(m: map<Key, Value>, done: set<Key>): map<Key, Value> {
    map k | k in m :: if k in done then SetLive(m[k], false) else m[k]
  }

  /** A snapshot is free of ignored objects exactly when each of them is live or in the base. */
  lemma IgnoredExact(m: map<Key, Value>, base: map<Key, Value>)
    ensures (forall k :: k in LeakMap(m, base, m.Keys) ==> !IsIgnored(m[k])) <==>
      forall k :: k in m && IsIgnored(m[k]) ==> IsLive(m[k]) || k in base
  {
    var leaks := LeakMap(m, base, m.Keys);
    forall k | k in m ensures k in leaks <==> !IsLive(m[k]) && k !in base { assert k in leaks <==> Leaks(m, base, k); }
  }

  lemma LeakMore(m: map<Key, Value>, base: map<Key, Value>, done: set<Key>, k: Key)
    requires k in m && k !in done
    ensures LeakMap(m, base, done + {k}) ==
      if Leaks(m, base, k) then LeakMap(m, base, done)[k := m[k]] else LeakMap(m, base, done)
    ensures Leaks(m, base, k) ==> k !in LeakMap(m, base, done)
  {
  }

  lemma ClearMore(m: map<Key, Value>, done: set<Key>, k: Key)
    requires k in m && k !in done
    ensures Cleared(m, done)[k] == m[k]
    ensures Cleared(m, done + {k}) == Cleared(m, done)[k := SetLive(m[k], false)]
    ensures !IsLive(m[k]) ==> SetLive(m[k], false) == m[k]
  {
    TagsIndependent(m[k], false);
  }

  lemma ClearedRetags(m: map<Key, Value>, done: set<Key>)
    ensures Retagged(m, Cleared(m, done))
  {
    forall k | k in m ensures BucketOf(Cleared(m, done)[k]) == BucketOf(m[k]) { TagsIndependent(m[k], false); }
  }

  lemma TallyMore(m: map<Key, Value>, k: Key, v: Value)
    requires k !in m
    ensures Counted(m[k := v]) == Counted(m).Plus(Stats(1, 0, v.bytes, 0))
  {
    TallyPut(m, None, k, v);
    assert m - {k} == m;
  }

  class HeapProfile {
    const addresses: AddressMap
    var p: Profile

    ghost predicate Valid()
      reads this, addresses
    {
      && addresses.Valid() && ProfileOk(p)
      && forall k :: k in addresses.View() ==> BucketOf(addresses.View()[k]) in p.buckets
    }

    /** The statistics account for what is recorded. */
    ghost predicate Accounts()
      reads this, addresses
    {
      Balanced(p.buckets, addresses.View())
    }

    constructor ()
      ensures Valid() && Accounts() && addresses.View() == map[] && fresh(addresses)
    {
      addresses := new AddressMap();
      p := Profile(map[], seq(BUCKET_CHAINS, _ => []), 0, Stats(0, 0, 0, 0));
      new;
      EmptyProfileOk();
    }

    /** The one bucket of a stack trace, made on first use. */
    method GetBucket(stack: Trace) returns (b: int)
      requires ProfileOk(p)
      modifies this`p
      ensures ProfileOk(p) && b in p.buckets && b % 4 == 0 && p.buckets[b].stack == stack
      ensures p == old(p) || ((forall c :: c in old(p).buckets ==> old(p).buckets[c].stack != stack) && b == old(p).next
                              && p == WithBucket(old(p), stack))
    {
      hide TraceHash, ChainIndex, SumStats;
      var hash := TraceHash(stack);
      var chain := p.chains[ChainIndex(hash)];
      var i := 0;
      while i < |chain|
        invariant 0 <= i <= |chain|
        invariant forall j :: 0 <= j < i ==> chain[j] in p.buckets && p.buckets[chain[j]].stack != stack
      {
        b := chain[i];
        assert b in p.chains[ChainIndex(hash)];
        assert BucketOk(p, b);
        if p.buckets[b].hash == hash && p.buckets[b].stack == stack { return; }
        i := i + 1;
      }
      forall c | c in p.buckets ensures p.buckets[c].stack != stack { assert BucketOk(p, c); }
      WithBucketOk(p, stack);
      b := p.next;
      p := WithBucket(p, stack);
    }

    method RecordAlloc(ptr: Key, bytes: int, stack: Trace)
      requires Valid() && ptr >= 0
      modifies this, addresses
      ensures Valid() && exists b :: b in p.buckets && p.buckets[b].stack == stack
                                     && addresses.View() == old(addresses.View())[ptr := Value(b, bytes)]
      ensures ptr in addresses.View() && !IsLive(addresses.View()[ptr]) && !IsIgnored(addresses.View()[ptr])
      ensures old(Accounts()) ==> (Accounts() <==> ptr !in old(addresses.View()))
    {
      hide ProfileOk, Balanced, TraceHash, BucketOf, Ok, Contents, WithBucket;
      ghost var m, p0 := addresses.View(), p;
      var b := GetBucket(stack);
      ghost var p1 := p;
      BucketsGrow(p0, p1, stack);
      if Balanced(p0.buckets, m) {
        NextIsFree(p0);
        if p1 != p0 { WithBucketBalanced(p0, stack, m); }
        RecordBalance(p1.buckets, m, b, ptr, bytes);
      }
      ChargedOk(p, b, Stats(1, 0, bytes, 0));
      p := p.(buckets := Charged(p.buckets, b, Stats(1, 0, bytes, 0)), total := p.total.Plus(Stats(1, 0, bytes, 0)));
      addresses.Insert(ptr, Value(b, bytes));
      FreshTag(b, bytes);
    }

    method RecordFree(ptr: Key)
      requires Valid() && ptr >= 0
      modifies this`p, addresses
      ensures Valid() && addresses.View() == old(addresses.View()) - {ptr} && p.buckets.Keys == old(p.buckets.Keys)
      ensures old(Accounts()) ==> Accounts()
    {
      hide ProfileOk, Balanced, TraceHash, BucketOf, Ok, Contents;
      ghost var m := addresses.View();
      var res := addresses.FindAndRemove(ptr);
      if res.Some? {
        var v := res.value;
        var b := BucketOf(v);
        if Balanced(p.buckets, m) { FreeBalance(p.buckets, m, ptr); }
        ChargedOk(p, b, Stats(0, 1, 0, v.bytes));
        p := p.(buckets := Charged(p.buckets, b, Stats(0, 1, 0, v.bytes)),
                total := p.total.Plus(Stats(0, 1, 0, v.bytes)));
      } else {
        assert m - {ptr} == m;
      }
    }

    method MarkAsLive(ptr: Key) returns (marked: bool)
      requires Valid() && ptr >= 0
      modifies addresses`s
      ensures Valid() && marked == (ptr in old(addresses.View()) && !IsLive(old(addresses.View())[ptr]))
      ensures ptr in old(addresses.View()) ==>
        addresses.View() == old(addresses.View())[ptr := SetLive(old(addresses.View())[ptr], true)]
      ensures ptr !in old(addresses.View()) ==> addresses.View() == old(addresses.View())
      ensures addresses.s.table == old(addresses.s.table) && SameSizes(old(addresses.s.store), addresses.s.store)
      ensures old(Accounts()) ==> Accounts()
    {
      hide ProfileOk, Balanced, Ok, Contents, BucketOf, IsLive, SetLive;
      ghost var m := addresses.View();
      var e := addresses.FindMutable(ptr);
      if e.Some? {
        var v := addresses.s.store[e.value].value;
        LiveFacts(v);
        if !IsLive(v) {
          addresses.SetValue(e.value, SetLive(v, true), ptr);
          if Balanced(p.buckets, m) { BalancedRetagged(p.buckets, m, addresses.View()); }
          return true;
        }
        assert m[ptr := m[ptr]] == m;
      }
      return false;
    }

    method MarkAsIgnored(ptr: Key)
      requires Valid() && ptr >= 0
      modifies addresses`s
      ensures Valid()
      ensures addresses.View() == if ptr !in old(addresses.View()) then old(addresses.View())
                                  else old(addresses.View())[ptr := SetIgnore(old(addresses.View())[ptr], true)]
      ensures addresses.s.table == old(addresses.s.table) && SameSizes(old(addresses.s.store), addresses.s.store)
      ensures old(Accounts()) ==> Accounts()
    {
      hide ProfileOk, Balanced, Ok, Contents, BucketOf, IsIgnored, SetIgnore;
      ghost var m := addresses.View();
      var e := addresses.FindMutable(ptr);
      if e.Some? {
        var v := addresses.s.store[e.value].value;
        IgnoreFacts(v);
        addresses.SetValue(e.value, SetIgnore(v, true), ptr);
        if Balanced(p.buckets, m) { BalancedRetagged(p.buckets, m, addresses.View()); }
      }
    }

    /** One step of NonLiveSnapshot: clear a live bit, or take the entry into the snapshot. */
    method AddIfNonLive(e: EntryRef, base: AddressMap?, snap: AddressMap, total: Stats, ghost key: Key)
      returns (total': Stats)
      requires addresses.Valid() && snap.Valid() && snap != addresses && key in addresses.at && addresses.at[key] == e
      requires base != null ==> base.Valid() && base != addresses && base != snap
      modifies addresses`s, snap
      ensures addresses.Valid() && snap.Valid() && key in old(addresses.View())
      ensures var v := old(addresses.View())[key];
        && addresses.View() == old(addresses.View())[key := SetLive(v, false)]
        && (if !IsLive(v) && (base == null || key !in base.View())
            then snap.View() == old(snap.View())[key := v] && total' == total.Plus(Stats(1, 0, v.bytes, 0))
            else snap.View() == old(snap.View()) && total' == total)
    {
      hide Ok, Contents, IsLive, SetLive;
      ContentsAt(addresses.s, addresses.at);
      var ptr, v := addresses.s.store[e].key, addresses.s.store[e].value;
      total' := total;
      ClearMore(addresses.View(), {}, key);
      if IsLive(v) {
        addresses.SetValue(e, SetLive(v, false), key);
      } else {
        assert addresses.View()[key := v] == addresses.View();
        var known := None;
        if base != null { known := base.FindMutable(ptr); }
        if known.None? {
          snap.Insert(ptr, v);
          total' := total.Plus(Stats(1, 0, v.bytes, 0));
        }
      }
    }

    /** The recorded objects that are neither live nor in `base`; all live bits are cleared. */
    method NonLiveSnapshot(base: AddressMap?) returns (snap: AddressMap, total: Stats)
      requires Valid() && (base != null ==> base.Valid() && base != addresses)
      modifies addresses`s
      ensures Valid() && fresh(snap) && snap.Valid() && (old(Accounts()) ==> Accounts())
      ensures var m, b := old(addresses.View()), (if base == null then map[] else base.View());
        && addresses.View() == Cleared(m, m.Keys)
        && snap.View() == LeakMap(m, b, m.Keys)
        && total == Counted(snap.View())
    {
      hide ProfileOk, Balanced, Ok, Contents, BucketOf, IsLive, SetLive, TallyOf, LeakMap, Cleared, KeysOf, NoRepeats;
      hide Retagged;
      ghost var m, b := addresses.View(), (if base == null then map[] else base.View());
      snap := new AddressMap();
      total := Stats(0, 0, 0, 0);
      ContentsAt(addresses.s, addresses.at);
      var visited := addresses.Iterate();
      ghost var store, at := addresses.s.store, addresses.at;
      NothingDone(m, b, store, visited);
      var i := 0;
      while i < |visited|
        invariant 0 <= i <= |visited| && addresses.Valid() && snap.Valid() && addresses.at == at
        invariant addresses.View() == Cleared(m, KeysOf(store, visited[..i]))
        invariant snap.View() == LeakMap(m, b, KeysOf(store, visited[..i])) && total == Counted(snap.View())
      {
        ghost var key, done := store[visited[i]].key, KeysOf(store, visited[..i]);
        OneMoreKey(store, at, visited, i);
        ClearMore(m, done, key);
        LeakMore(m, b, done, key);
        if Leaks(m, b, key) { TallyMore(snap.View(), key, m[key]); }
        total := AddIfNonLive(visited[i], base, snap, total, key);
        i := i + 1;
      }
      AllKeys(store, at, visited);
      assert visited[..i] == visited;
      ClearedRetags(m, m.Keys);
      SameBuckets(m, addresses.View(), p.buckets);
      if Balanced(p.buckets, m) { BalancedRetagged(p.buckets, m, addresses.View()); }
    }
  }

  lemma SameBuckets(m: map<Key, Value>, m': map<Key, Value>, buckets: Buckets)
    requires Retagged(m, m') && forall k :: k in m ==> BucketOf(m[k]) in buckets
    ensures forall k :: k in m' ==> BucketOf(m'[k]) in buckets
  {
  }

  ghost function Counted(m: map<Key, Value>): Stats { Stats(TallyOf(m, None).count, 0, TallyOf(m, None).bytes, 0) }

  ghost function KeysOf(store: Store, refs: seq<EntryRef>): set<Key> {
    set j | 0 <= j < |refs| && refs[j] in store :: store[refs[j]].key
  }

  lemma OneMoreKey(store: Store, at: map<Key, EntryRef>, visited: seq<EntryRef>, i: int)
    requires NoRepeats(visited) && 0 <= i < |visited|
    requires forall e :: e in visited ==> e in store && store[e].key in at && at[store[e].key] == e
    ensures visited[i] in store && store[visited[i]].key !in KeysOf(store, visited[..i])
    ensures KeysOf(store, visited[..i + 1]) == KeysOf(store, visited[..i]) + {store[visited[i]].key}
  {
    var s, s', e := visited[..i], visited[..i + 1], visited[i];
    assert e in visited && s'[i] == e;
    forall k | k in KeysOf(store, s) ensures k in KeysOf(store, s') && k != store[e].key {
      var j :| 0 <= j < |s| && s[j] in store && store[s[j]].key == k;
      assert s'[j] == s[j] && visited[j] in visited;
    }
  }

  lemma AllKeys(store: Store, at: map<Key, EntryRef>, visited: seq<EntryRef>)
    requires forall e :: e in visited ==> e in store && store[e].key in at && at[store[e].key] == e
    requires forall k :: k in at ==> at[k] in visited && at[k] in store && store[at[k]].key == k
    ensures KeysOf(store, visited) == at.Keys
  {
    forall k | k in KeysOf(store, visited) ensures k in at {
      var j :| 0 <= j < |visited| && visited[j] in store && store[visited[j]].key == k;
      assert visited[j] in visited;
    }
    forall k | k in at ensures k in KeysOf(store, visited) {
      var j :| 0 <= j < |visited| && visited[j] == at[k];
    }
  }

  lemma EmptyProfileOk()
    ensures ProfileOk(Profile(map[], seq(BUCKET_CHAINS, _ => []), 0, Stats(0, 0, 0, 0)))
  {
  }

  lemma BucketsGrow(p: Profile, p': Profile, stack: Trace)
    requires ProfileOk(p) && (p' == p || p' == WithBucket(p, stack))
    ensures p.buckets.Keys <= p'.buckets.Keys
  {
  }

  lemma FreshTag(b: int, bytes: int)
    requires b % 4 == 0
    ensures BucketOf(Value(b, bytes)) == b && !IsLive(Value(b, bytes)) && !IsIgnored(Value(b, bytes))
  {
  }

  lemma LiveFacts(v: Value)
    ensures BucketOf(SetLive(v, true)) == BucketOf(v) && SetLive(v, true).bytes == v.bytes
    ensures IsLive(v) ==> SetLive(v, true) == v
  {
    TagsIndependent(v, true);
  }

  lemma IgnoreFacts(v: Value)
    ensures BucketOf(SetIgnore(v, true)) == BucketOf(v) && SetIgnore(v, true).bytes == v.bytes
  {
    TagsIndependent(v, true);
  }

  lemma NothingDone(m: map<Key, Value>, base: map<Key, Value>, store: Store, visited: seq<EntryRef>)
    ensures Cleared(m, KeysOf(store, visited[..0])) == m && LeakMap(m, base, KeysOf(store, visited[..0])) == map[]
    ensures Counted(map[]) == Stats(0, 0, 0, 0)
  {
  }

  /** The same pointer recorded twice: its bucket counts two allocations, the map has one. */
  method DoubleRecording() returns (profile: HeapProfile)
    ensures fresh(profile) && profile.Valid() && !profile.Accounts()
  {
    hide ProfileOk, Balanced, TraceHash, BucketOf, Ok, Contents;
    profile := new HeapProfile();
    profile.RecordAlloc(4096, 8, [1]);
    profile.RecordAlloc(4096, 8, [1]);
  }

  /** An object allocated while it was to be ignored, with nobody marking it: the snapshot
      has it. */
  method IgnoredReported() returns (profile: HeapProfile, snap: AddressMap)
    ensures fresh(profile) && profile.Valid() && fresh(snap) && snap.Valid()
    ensures 4096 in snap.View() && IsIgnored(snap.View()[4096])
  {
    hide ProfileOk, Balanced, BucketOf, Ok, Contents, IsLive, IsIgnored, SetIgnore;
    profile := new HeapProfile();
    profile.RecordAlloc(4096, 8, [1]);
    TagsIndependent(profile.addresses.View()[4096], true);
    profile.MarkAsIgnored(4096);
    var total;
    snap, total := profile.NonLiveSnapshot(null);
  }
}
