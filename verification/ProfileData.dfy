/** Aggregation of CPU-profile samples: a small associative table of counted traces, an
    eviction buffer, and the slots written to the output. */
module ProfileDatas {
  import opened Common

  const MAX_DEPTH: int := 64
  const ASSOCIATIVITY: int := 4
  const BUCKETS: int := 1024
  const BUFFER: int := 262144

  type Slot = int
  type Trace = seq<Slot>

  /** A counted trace; an unused entry has count 0 and depth 0. */
  datatype Entry = Entry(count: int, stack: Trace)

  type Table = seq<seq<Entry>>

  function Cut(stack: Trace): Trace { if |stack| > MAX_DEPTH then stack[..MAX_DEPTH] else stack }

  /** Rotate by a byte and add, in a 64-bit word. */
  function HashStep(h: int, slot: Slot): int {
    (h * 256 % WORD + h / 0x100_0000_0000_0000 + slot * 31 + slot * 7 + slot * 3) % WORD
  }

  function HashFrom(h: int, stack: Trace): int
    decreases |stack|
  {
    if stack == [] then h else HashFrom(HashStep(h, stack[0]), stack[1..])
  }

  function BucketOf(stack: Trace): (b: int)
    ensures 0 <= b < BUCKETS
  {
    HashFrom(0, stack) % BUCKETS
  }

  // -------------------------------------------------------------------- encoding

  /** What Evict writes for an entry. */
  function Encode(e: Entry): seq<Slot> { [e.count, |e.stack|] + e.stack }

  function EncodeAll(log: seq<Entry>): seq<Slot> {
    if log == [] then [] else Encode(log[0]) + EncodeAll(log[1..])
  }

  function Header(period: Slot): seq<Slot> { [0, 3, 0, period, 0] }

  const TRAILER: seq<Slot> := [0, 1, 0]

  predicate RecordOk(e: Entry) { e.count > 0 && 0 < |e.stack| <= MAX_DEPTH }

  predicate LogOk(log: seq<Entry>) { forall i :: 0 <= i < |log| ==> RecordOk(log[i]) }

  /** A reader of the records: up to the end-of-data record, which has count 0. */
  function Decode(s: seq<Slot>): Option<(seq<Entry>, seq<Slot>)>
    decreases |s|
  {
    if |s| < 2 || s[1] < 0 || |s| < 2 + s[1] then None
    else if s[0] == 0 then (if |s| >= 3 && s[..3] == TRAILER then Some(([], s[3..])) else None)
    else
      var tail := Decode(s[2 + s[1]..]);
      if tail.None? then None else Some(([Entry(s[0], s[2..2 + s[1]])] + tail.value.0, tail.value.1))
  }

  lemma DecodeRecord(e: Entry, t: seq<Slot>)
    requires RecordOk(e)
    ensures Decode(Encode(e) + t) ==
      if Decode(t).None? then None else Some(([e] + Decode(t).value.0, Decode(t).value.1))
  {
    var s := Encode(e) + t;
    assert s[0] == e.count && s[1] == |e.stack| && |s| == 2 + |e.stack| + |t|;
    assert s[2..2 + |e.stack|] == e.stack && s[2 + |e.stack|..] == t;
  }

  lemma DecodeTrailer(rest: seq<Slot>)
    ensures Decode(TRAILER + rest) == Some(([], rest))
  {
    var s := TRAILER + rest;
    assert s[..3] == TRAILER && s[3..] == rest;
  }

  /** Records, then the trailer: the reader gets the records back and leaves the rest. */
  lemma {:induction false} DecodeEncoded(log: seq<Entry>, rest: seq<Slot>)
    requires LogOk(log)
    ensures Decode(EncodeAll(log) + TRAILER + rest) == Some((log, rest))
    decreases |log|
  {
    hide Decode, Encode;
    if log == [] {
      DecodeTrailer(rest);
      assert EncodeAll(log) + TRAILER + rest == TRAILER + rest;
    } else {
      var e, t := log[0], EncodeAll(log[1..]) + TRAILER + rest;
      assert RecordOk(e);
      forall i | 0 <= i < |log| - 1 ensures RecordOk(log[1..][i]) { assert log[1..][i] == log[i + 1]; }
      DecodeEncoded(log[1..], rest);
      DecodeRecord(e, t);
      assert EncodeAll(log) + TRAILER + rest == Encode(e) + t;
      assert log == [e] + log[1..];
    }
  }

  lemma {:induction false} EncodeMore(log: seq<Entry>, e: Entry)
    ensures EncodeAll(log + [e]) == EncodeAll(log) + Encode(e)
    decreases |log|
  {
    hide Encode;
    if log == [] {
      assert (log + [e])[1..] == [] && (log + [e])[0] == e;
      NothingBuffered(Encode(e));
      assert [] + Encode(e) == Encode(e);
    } else {
      EncodeMore(log[1..], e);
      assert (log + [e])[1..] == log[1..] + [e] && (log + [e])[0] == log[0];
      Appended(Encode(log[0]), EncodeAll(log[1..]), Encode(e));
    }
  }

  // -------------------------------------------------------------------- counting

  function Weight(e: Entry, t: Trace): int { if e.stack == t then e.count else 0 }

  /** Total count of a trace in a list of entries. */
  function CountIn(s: seq<Entry>, t: Trace): int { if s == [] then 0 else Weight(s[0], t) + CountIn(s[1..], t) }

  lemma {:induction false} CountMore(s: seq<Entry>, e: Entry, t: Trace)
    ensures CountIn(s + [e], t) == CountIn(s, t) + Weight(e, t)
    decreases |s|
  {
    if s == [] {
      assert [e][1..] == [];
    } else {
      CountMore(s[1..], e, t);
      assert (s + [e])[1..] == s[1..] + [e];
    }
  }

  lemma {:induction false} CountUpdate(s: seq<Entry>, a: int, e: Entry, t: Trace)
    requires 0 <= a < |s|
    ensures CountIn(s[a := e], t) == CountIn(s, t) - Weight(s[a], t) + Weight(e, t)
    decreases |s|
  {
    if a == 0 {
      assert s[a := e][1..] == s[1..];
    } else {
      CountUpdate(s[1..], a - 1, e, t);
      assert s[a := e][1..] == s[1..][a - 1 := e];
    }
  }

  ghost predicate EntryOk(e: Entry, b: int) {
    (e.count == 0 && e.stack == []) || (RecordOk(e) && BucketOf(e.stack) == b)
  }

  ghost predicate BucketOk(bucket: seq<Entry>, b: int) {
    && |bucket| == ASSOCIATIVITY
    && (forall a :: 0 <= a < |bucket| ==> EntryOk(bucket[a], b))
    && (forall a, c :: 0 <= a < c < |bucket| && bucket[a].stack == bucket[c].stack ==> bucket[a].stack == [])
  }

  /** Every trace is in its own bucket only, at most once. */
  ghost predicate TableOk(hash: Table) {
    |hash| == BUCKETS && forall b {:trigger BucketOk(hash[b], b)} :: 0 <= b < BUCKETS ==> BucketOk(hash[b], b)
  }

  /** A trace occupies at most one entry of the whole table. */
  lemma OneEntry(hash: Table, b: int, a: int, b': int, a': int)
    requires TableOk(hash) && 0 <= b < BUCKETS && 0 <= b' < BUCKETS
    requires 0 <= a < |hash[b]| && 0 <= a' < |hash[b']| && hash[b][a].count > 0
    requires hash[b][a].stack == hash[b'][a'].stack
    ensures b == b' && a == a'
  {
    assert BucketOk(hash[b], b) && BucketOk(hash[b'], b');
    assert EntryOk(hash[b][a], b) && EntryOk(hash[b'][a'], b');
  }

  function TableCount(hash: Table, t: Trace): int {
    if |hash| == BUCKETS then CountIn(hash[BucketOf(t)], t) else 0
  }

  /** Nothing is lost: table and evicted records together hold every sample. */
  ghost predicate Conserved(hash: Table, log: seq<Entry>, adds: multiset<Trace>) {
    forall t {:trigger adds[t]} :: t != [] ==> TableCount(hash, t) + CountIn(log, t) == adds[t]
  }

  function WithEntry(hash: Table, b: int, a: int, e: Entry): Table
    requires 0 <= b < |hash| && 0 <= a < |hash[b]|
  {
    hash[b := hash[b][a := e]]
  }

  lemma WithEntryOk(hash: Table, b: int, a: int, e: Entry)
    requires TableOk(hash) && 0 <= b < BUCKETS && 0 <= a < |hash[b]| && EntryOk(e, b)
    requires e.stack == [] || forall c :: 0 <= c < |hash[b]| && c != a ==> hash[b][c].stack != e.stack
    ensures TableOk(WithEntry(hash, b, a, e))
    ensures forall t :: t != [] ==>
      TableCount(WithEntry(hash, b, a, e), t) == TableCount(hash, t) - Weight(hash[b][a], t) + Weight(e, t)
  {
    hide BucketOf;
    var hash' := WithEntry(hash, b, a, e);
    assert BucketOk(hash[b], b) && EntryOk(hash[b][a], b);
    forall g | 0 <= g < BUCKETS ensures BucketOk(hash'[g], g) {
      assert BucketOk(hash[g], g);
      if g == b { forall c | 0 <= c < |hash'[b]| ensures EntryOk(hash'[b][c], b) { assert EntryOk(hash[b][c], b); } }
    }
    forall t | t != [] ensures TableCount(hash', t) == TableCount(hash, t) - Weight(hash[b][a], t) + Weight(e, t) {
      if BucketOf(t) == b { CountUpdate(hash[b], a, e, t); }
    }
  }

  // ------------------------------------------------------------ samples and evictions

  /** The trace is in the table: its count goes up. */
  lemma CountedAgain(hash: Table, log: seq<Entry>, adds: multiset<Trace>, b: int, a: int)
    requires TableOk(hash) && Conserved(hash, log, adds) && 0 <= b < BUCKETS && 0 <= a < |hash[b]|
    requires hash[b][a].stack != []
    ensures var e := hash[b][a];
      && TableOk(WithEntry(hash, b, a, e.(count := e.count + 1)))
      && Conserved(WithEntry(hash, b, a, e.(count := e.count + 1)), log, adds + multiset{e.stack})
  {
    hide BucketOf, CountIn;
    assert BucketOk(hash[b], b) && EntryOk(hash[b][a], b);
    var e := hash[b][a];
    WithEntryOk(hash, b, a, e.(count := e.count + 1));
    hide TableCount, TableOk;
    forall t {:trigger (adds + multiset{e.stack})[t]} | t != []
      ensures TableCount(WithEntry(hash, b, a, e.(count := e.count + 1)), t) + CountIn(log, t)
        == (adds + multiset{e.stack})[t]
    {
      assert adds[t] >= 0;
    }
  }

  /** The trace takes over an entry, which was unused or has just been evicted. */
  lemma CountedFirst(hash: Table, log: seq<Entry>, log': seq<Entry>, adds: multiset<Trace>, a: int, t0: Trace)
    requires TableOk(hash) && Conserved(hash, log, adds) && t0 != [] && |t0| <= MAX_DEPTH
    requires var b := BucketOf(t0);
      && 0 <= a < |hash[b]| && (forall c :: 0 <= c < |hash[b]| ==> hash[b][c].stack != t0)
      && log' == (if hash[b][a].count > 0 then log + [hash[b][a]] else log)
    ensures TableOk(WithEntry(hash, BucketOf(t0), a, Entry(1, t0)))
    ensures Conserved(WithEntry(hash, BucketOf(t0), a, Entry(1, t0)), log', adds + multiset{t0})
  {
    hide BucketOf, CountIn;
    var b := BucketOf(t0);
    assert BucketOk(hash[b], b) && EntryOk(hash[b][a], b);
    WithEntryOk(hash, b, a, Entry(1, t0));
    hide TableCount, TableOk;
    forall t {:trigger (adds + multiset{t0})[t]} | t != []
      ensures TableCount(WithEntry(hash, b, a, Entry(1, t0)), t) + CountIn(log', t) == (adds + multiset{t0})[t]
    {
      CountMore(log, hash[b][a], t);
      assert adds[t] >= 0;
    }
  }

  /** Moving an entry from the table to the log. */
  lemma Moved(hash: Table, log: seq<Entry>, adds: multiset<Trace>, b: int, a: int)
    requires TableOk(hash) && Conserved(hash, log, adds) && 0 <= b < BUCKETS && 0 <= a < |hash[b]|
    ensures RecordOk(hash[b][a]) || hash[b][a] == Entry(0, [])
    ensures TableOk(WithEntry(hash, b, a, Entry(0, [])))
    ensures hash[b][a].count > 0 ==> Conserved(WithEntry(hash, b, a, Entry(0, [])), log + [hash[b][a]], adds)
    ensures hash[b][a].count == 0 ==> WithEntry(hash, b, a, Entry(0, [])) == hash
  {
    hide BucketOf, CountIn;
    assert BucketOk(hash[b], b) && EntryOk(hash[b][a], b);
    WithEntryOk(hash, b, a, Entry(0, []));
    assert hash[b][a := hash[b][a]] == hash[b];
    assert hash[b][a] == Entry(0, []) ==> WithEntry(hash, b, a, Entry(0, [])) == hash;
    hide TableCount, TableOk;
    forall t {:trigger adds[t]} | hash[b][a].count > 0 && t != []
      ensures TableCount(WithEntry(hash, b, a, Entry(0, [])), t) + CountIn(log + [hash[b][a]], t) == adds[t]
    {
      CountMore(log, hash[b][a], t);
      assert adds[t] >= 0;
    }
  }

  /** Entries before position (`b`, `a`) are unused. */
  ghost predicate ClearTo(hash: Table, b: int, a: int) {
    forall g, c {:trigger hash[g][c]} ::
      0 <= g < |hash| && 0 <= c < |hash[g]| && (g < b || (g == b && c < a)) ==> hash[g][c] == Entry(0, [])
  }

  lemma {:induction false} UnusedCount(s: seq<Entry>, t: Trace)
    requires t != [] && forall i :: 0 <= i < |s| ==> s[i] == Entry(0, [])
    ensures CountIn(s, t) == 0
    decreases |s|
  {
    if s != [] { UnusedCount(s[1..], t); }
  }

  /** With the table empty, the log accounts for every sample. */
  lemma AllLogged(hash: Table, log: seq<Entry>, adds: multiset<Trace>)
    requires TableOk(hash) && ClearTo(hash, BUCKETS, 0) && Conserved(hash, log, adds)
    ensures forall t {:trigger adds[t]} :: t != [] ==> CountIn(log, t) == adds[t]
  {
    hide BucketOf;
    forall t {:trigger adds[t]} | t != [] ensures CountIn(log, t) == adds[t] { UnusedCount(hash[BucketOf(t)], t); }
  }

  /** Period in microseconds as stored in a slot; C division truncates. */
  function Period(frequency: int): Slot
    requires frequency != 0
  {
    if frequency > 0 then 1000000 / frequency else (-(1000000 / -frequency)) % WORD
  }

  class ProfileData {
    var enabled: bool
    var hash: Table
    const evict: array<Slot>
    var num: int
    var out: seq<Slot>
    var count: int
    var evictions: int
    ghost var log: seq<Entry>
    ghost var adds: multiset<Trace>
    ghost var period: Slot

    /** Output and buffer together hold the header and the evicted records. */
    ghost predicate BufferOk()
      reads this`num, this`out, this`log, this`period, evict
    {
      && evict.Length == BUFFER && 0 <= num <= BUFFER && LogOk(log)
      && out + evict[..num] == Header(period) + EncodeAll(log)
    }

    ghost predicate Valid()
      reads this, evict
    {
      evict.Length == BUFFER && (enabled ==> BufferOk() && TableOk(hash) && Conserved(hash, log, adds))
    }

    constructor ()
      ensures Valid() && !enabled && fresh(evict)
    {
      evict := new Slot[BUFFER];
      enabled, hash, num, out, count, evictions := false, [], 0, [], 0, 0;
      log, adds, period := [], multiset{}, 0;
    }

    method Put(x: Slot)
      requires 0 <= num < evict.Length
      modifies this`num, evict
      ensures num == old(num) + 1 && evict[..num] == old(evict[..num]) + [x]
    {
      evict[num] := x;
      num := num + 1;
    }

    method PutAll(s: seq<Slot>)
      requires 0 <= num && num + |s| <= evict.Length
      modifies this`num, evict
      ensures num == old(num) + |s| && evict[..num] == old(evict[..num]) + s
    {
      var i := 0;
      while i < |s|
        invariant 0 <= i <= |s| && num == old(num) + i && evict[..num] == old(evict[..num]) + s[..i]
      {
        Put(s[i]);
        assert s[..i + 1] == s[..i] + [s[i]];
        i := i + 1;
      }
      assert s[..i] == s;
    }

    method FlushEvicted()
      requires 0 <= num <= evict.Length
      modifies this`num, this`out
      ensures num == 0 && out == old(out + evict[..num])
    {
      if num > 0 { out := out + evict[..num]; }
      num := 0;
    }

    /** Append a record to the buffer, writing the buffer out first when it is too full. */
    method Evict(e: Entry)
      requires BufferOk() && RecordOk(e)
      modifies this`num, this`out, this`log, evict
      ensures BufferOk() && log == old(log) + [e]
    {
      hide EncodeAll, Encode, Header, LogOk;
      if num + |e.stack| + 2 > BUFFER {
        FlushEvicted();
        assert evict[..num] == [];
        NothingBuffered(out);
      }
      ghost var buffered := evict[..num];
      PutRecord(e);
      Appended(out, buffered, Encode(e));
      Appended(Header(period), EncodeAll(log), Encode(e));
      EncodeMore(log, e);
      LogMore(log, e);
      log := log + [e];
    }

    method PutRecord(e: Entry)
      requires 0 <= num && num + |e.stack| + 2 <= evict.Length
      modifies this`num, evict
      ensures num == old(num) + |e.stack| + 2 && evict[..num] == old(evict[..num]) + Encode(e)
    {
      Put(e.count);
      Put(|e.stack|);
      PutAll(e.stack);
      assert [e.count] + [|e.stack|] == [e.count, |e.stack|];
    }

    method Start(canOpen: bool, frequency: int) returns (ok: bool)
      requires Valid() && frequency != 0
      modifies this, evict
      ensures Valid() && ok == (!old(enabled) && canOpen)
      ensures ok ==> enabled && adds == multiset{} && log == [] && period == Period(frequency)
    {
      if enabled || !canOpen { return false; }
      num, count, evictions, out := 0, 0, 0, [];
      hash := seq(BUCKETS, _ => seq(ASSOCIATIVITY, _ => Entry(0, [])));
      log, adds, period := [], multiset{}, Period(frequency);
      EmptyTable();
      PutAll([0, 3, 0, Period(frequency), 0]);
      assert out + evict[..num] == Header(period);
      enabled := true;
      ok := true;
    }

    /** The entry of a bucket that holds a trace, or -1. */
    method FindEntry(bucket: seq<Entry>, stack: Trace) returns (a: int)
      ensures -1 <= a < |bucket| && (a >= 0 ==> bucket[a].stack == stack)
      ensures a == -1 ==> forall c :: 0 <= c < |bucket| ==> bucket[c].stack != stack
    {
      a := 0;
      while a < |bucket|
        invariant 0 <= a <= |bucket| && forall c :: 0 <= c < a ==> bucket[c].stack != stack
      {
        if bucket[a].stack == stack { return; }
        a := a + 1;
      }
      a := -1;
    }

    /** The first entry with the smallest count. */
    method Smallest(bucket: seq<Entry>) returns (e: int)
      requires bucket != []
      ensures 0 <= e < |bucket|
      ensures forall c :: 0 <= c < |bucket| ==>
        bucket[e].count <= bucket[c].count && (c < e ==> bucket[e].count < bucket[c].count)
    {
      e := 0;
      var a := 1;
      while a < |bucket|
        invariant 0 <= e < a <= |bucket|
        invariant forall c :: 0 <= c < a ==>
          bucket[e].count <= bucket[c].count && (c < e ==> bucket[e].count < bucket[c].count)
      {
        if bucket[a].count < bucket[e].count { e := a; }
        a := a + 1;
      }
    }

    /** Give a trace that is not in its bucket the entry with the smallest count. */
    method Replace(b: int, t: Trace) returns (ghost victim: Option<Entry>)
      requires BufferOk() && TableOk(hash) && Conserved(hash, log, adds) && t != [] && |t| <= MAX_DEPTH
      requires b == BucketOf(t) && |hash| == BUCKETS && BucketOk(hash[b], b)
      requires forall c :: 0 <= c < |hash[b]| ==> hash[b][c].stack != t
      modifies this`hash, this`num, this`out, this`log, this`evictions, evict
      ensures BufferOk() && TableOk(hash) && Conserved(hash, log, adds + multiset{t})
      ensures log == if victim.Some? then old(log) + [victim.value] else old(log)
      ensures victim.Some? ==> Displaced(old(hash)[b], victim.value, t)
      ensures evictions == old(evictions) + (if victim.Some? then 1 else 0)
      ensures victim.None? ==> exists c :: 0 <= c < |old(hash)[b]| && old(hash)[b][c].count <= 0
    {
      hide BucketOf, TableOk, Conserved, ProfileData.BufferOk, WithEntry;
      victim := None;
      ghost var log0 := log;
      var e := Smallest(hash[b]);
      if hash[b][e].count > 0 {
        evictions := evictions + 1;
        victim := Some(hash[b][e]);
        BucketEntry(hash[b], b, e);
        Evict(hash[b][e]);
      }
      CountedFirst(hash, log0, log, adds, e, t);
      hash := WithEntry(hash, b, e, Entry(1, t));
    }

    /** Count one sample of a trace, cut to 64 frames. */
    method Add(stack: Trace) returns (ghost victim: Option<Entry>)
      requires Valid() && (enabled ==> stack != [])
      modifies this`hash, this`num, this`out, this`log, this`adds, this`count, this`evictions, evict
      ensures Valid() && (!enabled ==> adds == old(adds) && log == old(log) && out == old(out))
      ensures enabled ==> adds == old(adds) + multiset{Cut(stack)} && count == old(count) + 1
      // A trace that is not in the table displaces the least counted entry of its bucket.
      ensures log == if victim.Some? then old(log) + [victim.value] else old(log)
      ensures evictions == old(evictions) + (if victim.Some? then 1 else 0)
      ensures victim.Some? ==>
        |old(hash)| == BUCKETS && Displaced(old(hash)[BucketOf(Cut(stack))], victim.value, Cut(stack))
    {
      hide BucketOf, TableOk, Conserved, BucketOk, ProfileData.BufferOk, WithEntry, Displaced;
      victim := None;
      if !enabled { return; }
      var t := Cut(stack);
      var b := BucketOf(t);
      count := count + 1;
      BucketIsOk(hash, b);
      var a := FindEntry(hash[b], t);
      if a >= 0 {
        CountedAgain(hash, log, adds, b, a);
        hash := WithEntry(hash, b, a, hash[b][a].(count := hash[b][a].count + 1));
      } else {
        victim := Replace(b, t);
      }
      adds := adds + multiset{t};
    }

    /** Move every counted entry to the output. */
    method FlushTable()
      requires Valid()
      modifies this`hash, this`num, this`out, this`log, evict
      ensures Valid() && (!enabled ==> hash == old(hash) && out == old(out) && log == old(log))
      ensures enabled ==> num == 0 && ClearTo(hash, BUCKETS, 0)
      ensures enabled ==> forall t {:trigger adds[t]} :: t != [] ==> CountIn(log, t) == adds[t]
    {
      hide BucketOf, TableOk, Conserved, ClearTo;
      if !enabled { return; }
      TableSize(hash);
      NoneClear(hash);
      var b := 0;
      while b < BUCKETS
        invariant 0 <= b <= BUCKETS && BufferOk() && |hash| == BUCKETS
        invariant TableOk(hash) && Conserved(hash, log, adds) && ClearTo(hash, b, 0)
      {
        BucketIsOk(hash, b);
        var a := 0;
        while a < ASSOCIATIVITY
          invariant 0 <= a <= ASSOCIATIVITY && BufferOk() && |hash| == BUCKETS && |hash[b]| == ASSOCIATIVITY
          invariant TableOk(hash) && Conserved(hash, log, adds) && ClearTo(hash, b, a)
        {
          Moved(hash, log, adds, b, a);
          OneMoreClear(hash, b, a);
          if hash[b][a].count > 0 {
            Evict(hash[b][a]);
            hash := WithEntry(hash, b, a, Entry(0, []));
          }
          a := a + 1;
        }
        BucketClear(hash, b);
        b := b + 1;
      }
      AllLogged(hash, log, adds);
      FlushEvicted();
      assert out + evict[..num] == out;
    }

    /** Move every counted entry to the output, close it with the end-of-data record: the
        output then decodes to records that account for exactly the samples added. */
    method Stop() returns (ghost written: seq<Entry>)
      requires Valid()
      modifies this, evict
      ensures Valid() && !enabled
      ensures old(enabled) ==>
        && LogOk(written) && out == Header(old(period)) + EncodeAll(written) + TRAILER
        && (forall t {:trigger old(adds)[t]} :: t != [] ==> CountIn(written, t) == old(adds)[t])
        && forall maps :: Decode(out[5..] + maps) == Some((written, maps))
    {
      hide BucketOf, TableOk, Conserved, ClearTo, EncodeAll, Decode;
      written := [];
      if !enabled { return; }
      ghost var left := hash;
      TableSize(hash);
      NoneClear(hash);
      var b := 0;
      while b < BUCKETS
        invariant 0 <= b <= BUCKETS && BufferOk() && |left| == |hash| == BUCKETS && hash == old(hash)
        invariant adds == old(adds) && period == old(period)
        invariant TableOk(left) && Conserved(left, log, adds) && ClearTo(left, b, 0) && SameFrom(left, hash, b, 0)
      {
        BucketIsOk(left, b);
        BucketIsOk(old(hash), b);
        var a := 0;
        while a < ASSOCIATIVITY
          invariant 0 <= a <= ASSOCIATIVITY && BufferOk() && |left| == BUCKETS && |left[b]| == ASSOCIATIVITY
          invariant hash == old(hash)
          invariant adds == old(adds) && period == old(period)
          invariant TableOk(left) && Conserved(left, log, adds) && ClearTo(left, b, a) && SameFrom(left, hash, b, a)
        {
          Moved(left, log, adds, b, a);
          OneMoreClear(left, b, a);
          OneLessSame(left, hash, b, a);
          if hash[b][a].count > 0 {
            Evict(hash[b][a]);
            left := WithEntry(left, b, a, Entry(0, []));
          }
          a := a + 1;
        }
        BucketClear(left, b);
        BucketSame(left, hash, b);
        b := b + 1;
      }
      AllLogged(left, log, adds);
      written := log;
      Close();
      enabled, hash := false, [];
      assert out == Header(period) + EncodeAll(written) + TRAILER;
      forall maps ensures Decode(out[5..] + maps) == Some((written, maps)) {
        assert out[5..] + maps == EncodeAll(written) + TRAILER + maps;
        DecodeEncoded(written, maps);
      }
    }

    /** The end-of-data record. */
    method Close()
      requires BufferOk()
      modifies this`num, this`out, evict
      ensures num == 0 && out == Header(period) + EncodeAll(log) + TRAILER
    {
      hide EncodeAll;
      if num + 3 > BUFFER {
        FlushEvicted();
        assert out + evict[..num] == out;
      }
      ghost var stream := out + evict[..num];
      PutAll([0, 1, 0]);
      assert out + evict[..num] == stream + TRAILER;
      FlushEvicted();
    }
  }

  lemma Appended(x: seq<Slot>, y: seq<Slot>, z: seq<Slot>)
    ensures x + (y + z) == x + y + z
  {
  }

  lemma NothingBuffered(x: seq<Slot>)
    ensures x + [] == x
  {
  }

  lemma LogMore(log: seq<Entry>, e: Entry)
    requires LogOk(log) && RecordOk(e)
    ensures LogOk(log + [e])
  {
  }

  /** `e` is a counted entry of a bucket without `t`, and no entry counts less. */
  ghost predicate Displaced(bucket: seq<Entry>, e: Entry, t: Trace) {
    e in bucket && forall c :: 0 <= c < |bucket| ==> 0 < e.count <= bucket[c].count && bucket[c].stack != t
  }

  lemma BucketEntry(bucket: seq<Entry>, b: int, a: int)
    requires BucketOk(bucket, b) && 0 <= a < |bucket| && bucket[a].count > 0
    ensures RecordOk(bucket[a])
  {
    assert EntryOk(bucket[a], b);
  }

  lemma EmptyTable()
    ensures var hash := seq(BUCKETS, _ => seq(ASSOCIATIVITY, _ => Entry(0, [])));
      TableOk(hash) && Conserved(hash, [], multiset{})
  {
    var hash: Table := seq(BUCKETS, _ => seq(ASSOCIATIVITY, _ => Entry(0, [])));
    forall b | 0 <= b < BUCKETS ensures BucketOk(hash[b], b) { }
    forall t | t != [] ensures TableCount(hash, t) == 0 { UnusedCount(hash[BucketOf(t)], t); }
  }

  lemma BucketIsOk(hash: Table, b: int)
    requires TableOk(hash) && 0 <= b < BUCKETS
    ensures |hash| == BUCKETS && BucketOk(hash[b], b) && |hash[b]| == ASSOCIATIVITY
  {
  }

  lemma TableSize(hash: Table)
    requires TableOk(hash)
    ensures |hash| == BUCKETS
  {
  }

  lemma NoneClear(hash: Table)
    ensures ClearTo(hash, 0, 0) && SameFrom(hash, hash, 0, 0)
  {
  }

  lemma OneMoreClear(hash: Table, b: int, a: int)
    requires ClearTo(hash, b, a) && 0 <= b < |hash| && 0 <= a < |hash[b]|
    ensures ClearTo(WithEntry(hash, b, a, Entry(0, [])), b, a + 1)
  {
  }

  lemma BucketClear(hash: Table, b: int)
    requires 0 <= b < |hash| && ClearTo(hash, b, |hash[b]|)
    ensures ClearTo(hash, b + 1, 0)
  {
  }

  /** From position (`b`, `a`) on, two tables agree. */
  ghost predicate SameFrom(left: Table, hash: Table, b: int, a: int) {
    |left| == |hash| && forall g, c {:trigger left[g][c]} ::
      0 <= g < |left| && 0 <= c < |left[g]| && c < |hash[g]| && (g > b || (g == b && c >= a)) ==>
        left[g][c] == hash[g][c]
  }

  lemma OneLessSame(left: Table, hash: Table, b: int, a: int)
    requires SameFrom(left, hash, b, a) && 0 <= b < |left| && 0 <= a < |left[b]| && |left[b]| <= |hash[b]|
    ensures left[b][a] == hash[b][a] && SameFrom(WithEntry(left, b, a, Entry(0, [])), hash, b, a + 1)
    ensures SameFrom(left, hash, b, a + 1)
  {
  }

  lemma BucketSame(left: Table, hash: Table, b: int)
    requires 0 <= b < |left| && SameFrom(left, hash, b, |left[b]|)
    ensures SameFrom(left, hash, b + 1, 0)
  {
  }
}
