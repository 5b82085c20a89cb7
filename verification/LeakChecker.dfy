/** The mark phase of the leak checker: a flood fill over recorded allocations, following
    every aligned word that interior search resolves. */
module LeakCheckers {
  import opened Common
  import opened AddressMaps
  import opened HeapProfiles
  import opened ShiftArith

  const POINTER_SIZE: int := 8

  datatype Placement = MustBeOnHeap | IgnoredOnHeap | MaybeLive | InGlobalData | ThreadData | ThreadRegisters

  datatype AllocObject = AllocObject(ptr: Key, size: int, place: Placement)

  /** What the scan of memory depends on, none of which it changes: the index, the words
      in memory, the scan step, the heap bounds and the longest offset followed. */
  datatype Context = Context(s: State, load: int -> nat, step: int, lo: int, hi: int, maxSize: int)

  // ------------------------------------------------------------ words of an object

  /** The first aligned address at or after `p`. */
  function ScanStart(p: Key, step: int): int
    requires step > 0
  {
    if p % step != 0 then p + step - p % step else p
  }

  function ScanSize(p: Key, size: int, step: int): int
    requires step > 0
  {
    if p % step == 0 then size else if size >= step - p % step then size - (step - p % step) else 0
  }

  /** `x` is the address of a word looked at in an object. */
  predicate Aligned(x: int, step: int)
    requires step > 0
  {
    x % step == 0
  }

  ghost predicate WordAt(p: Key, size: int, step: int, x: int) {
    && step > 0 && Aligned(x, step) && p <= x && x + POINTER_SIZE <= p + size
  }

  /** The recorded allocation a word leads to, if any. */
  ghost function Resolve(c: Context, word: int): Option<Key> {
    if c.lo <= word <= c.hi then
      var e := Inside(c.s, c.maxSize, word);
      if e.Some? && e.value in c.s.store then Some(c.s.store[e.value].key) else None
    else None
  }

  /** The cheap test before the search drops nothing: with bounds that cover every recorded
      range, a word outside them lies in no range. */
  lemma FastCheckIsSafe(c: Context, at: map<Key, EntryRef>, word: int)
    requires Ok(c.s, at) && word >= 0 && Ranges(Contents(c.s, at))
    requires var m := Contents(c.s, at); forall k :: k in m ==> c.lo <= k && k + m[k].bytes <= c.hi
    ensures Inside(c.s, c.maxSize, word).Some? ==> c.lo <= word <= c.hi && Resolve(c, word).Some?
  {
    hide Ok, Contents, Inside;
    if Inside(c.s, c.maxSize, word).Some? {
      var k := InsideCovers(c.s, at, c.maxSize, word);
      InsideListed(c.s, at, c.maxSize, word);
    }
  }

  ghost predicate Edge(c: Context, p: Key, size: int, k: Key) {
    exists x {:trigger c.load(x)} :: WordAt(p, size, c.step, x) && Resolve(c, c.load(x)) == Some(k)
  }

  /** The scan visits start, start + step, ... up to the last whole word: these are the
      aligned words inside the object. */
  lemma ScanCovers(p: Key, size: int, step: int, x: int)
    requires step > 0
    ensures WordAt(p, size, step, x) <==>
      && Aligned(x, step) && ScanStart(p, step) <= x
      && ScanSize(p, size, step) >= POINTER_SIZE && x <= ScanStart(p, step) + ScanSize(p, size, step) - POINTER_SIZE
  {
    StartIsLeast(p, step, x);
  }

  lemma StartIsLeast(p: Key, step: int, x: int)
    requires step > 0
    ensures Aligned(ScanStart(p, step), step) && p <= ScanStart(p, step) < p + step
    ensures Aligned(x, step) && x >= p ==> x >= ScanStart(p, step)
  {
    var q, r := p / step, p % step;
    assert p == step * q + r;
    NextMultiple(step, q, r, x);
  }

  lemma NextMultiple(step: int, q: int, r: int, x: int)
    requires step > 0 && 0 <= r < step
    ensures r != 0 ==> (step * q + r + step - r) % step == 0
    ensures r != 0 && x % step == 0 && x >= step * q + r ==> x >= step * q + r + step - r
  {
    var n := step * q;
    Distribute(q, 1, step);
    MultipleMod(q + 1, step);
    assert n + r + step - r == (q + 1) * step;
    if r != 0 && x % step == 0 && x >= n + r { MultipleAbove(step, q, x); }
  }

  lemma MultipleAbove(step: int, q: int, x: int)
    requires step > 0 && x % step == 0 && x > step * q
    ensures x >= step * q + step
  {
    var y := x / step;
    DivMod(x, step);
    Scaled(step, y, q);
  }

  lemma Scaled(step: int, a: int, b: int)
    requires step > 0
    ensures a <= b ==> step * a <= step * b
    ensures a > b ==> step * a >= step * b + step
  {
    if a <= b { MulMono(a, b, step); } else { MulMono(b + 1, a, step); }
  }

  // ------------------------------------------------------------------ reachability

  ghost function LiveSet(m: map<Key, Value>): set<Key> { set k | k in m && IsLive(m[k]) }

  /** The recorded values with exactly the keys of `live` marked on top. */
  ghost function Marked(m: map<Key, Value>, live: set<Key>): map<Key, Value> {
    map k | k in m :: if k in live then SetLive(m[k], true) else m[k]
  }

  lemma LiveOfMarked(m: map<Key, Value>, live: set<Key>)
    requires LiveSet(m) <= live <= m.Keys
    ensures LiveSet(Marked(m, live)) == live
  {
    forall k | k in m ensures k in LiveSet(Marked(m, live)) <==> k in live { TagsIndependent(m[k], true); }
  }

  ghost predicate EdgesIn(c: Context, p: Key, size: int, t: set<Key>) { forall k :: Edge(c, p, size, k) ==> k in t }

  ghost predicate IsSeed(m: map<Key, Value>, r: AllocObject) { r.place == MustBeOnHeap && r.ptr in m }

  ghost predicate RootDone(c: Context, m: map<Key, Value>, r: AllocObject, t: set<Key>) {
    (IsSeed(m, r) ==> r.ptr in t) && EdgesIn(c, r.ptr, r.size, t)
  }

  /** `t` holds what was live, what the roots are or lead to, and what its own newly
      live members lead to. */
  ghost predicate Complete(c: Context, m: map<Key, Value>, roots: seq<AllocObject>, t: set<Key>) {
    && Includes(c, m, roots, t)
    && (forall k {:trigger k in t} :: k in t && k in m && k !in LiveSet(m) ==> EdgesIn(c, k, m[k].bytes, t))
  }

  ghost predicate Includes(c: Context, m: map<Key, Value>, roots: seq<AllocObject>, t: set<Key>) {
    LiveSet(m) <= t && forall i :: 0 <= i < |roots| ==> RootDone(c, m, roots[i], t)
  }

  /** Every word inside a member leads to a member. */
  ghost predicate Closed(c: Context, m: map<Key, Value>, t: set<Key>) {
    forall k {:trigger k in t} :: k in t && k in m ==> EdgesIn(c, k, m[k].bytes, t)
  }

  /** When the live set was closed on entry, complete means closed under reachability. */
  lemma CompleteIsClosed(c: Context, m: map<Key, Value>, roots: seq<AllocObject>, t: set<Key>)
    requires Closed(c, m, LiveSet(m))
    ensures Complete(c, m, roots, t) <==> Includes(c, m, roots, t) && Closed(c, m, t)
  {
    hide Edge, LiveSet, RootDone;
    forall k | LiveSet(m) <= t && k in m && k in LiveSet(m) ensures EdgesIn(c, k, m[k].bytes, t) {
      assert EdgesIn(c, k, m[k].bytes, LiveSet(m));
    }
  }

  ghost predicate SeedOf(m: map<Key, Value>, roots: seq<AllocObject>, k: Key) {
    exists i :: 0 <= i < |roots| && IsSeed(m, roots[i]) && roots[i].ptr == k
  }

  /** As `Complete`, but a root on the heap need only be scanned over the size it was given
      with. */
  ghost predicate CompleteAsGiven(c: Context, m: map<Key, Value>, roots: seq<AllocObject>, t: set<Key>) {
    && Includes(c, m, roots, t)
    && (forall k {:trigger k in t} :: k in t && k in m && k !in LiveSet(m) && !SeedOf(m, roots, k) ==>
         EdgesIn(c, k, m[k].bytes, t))
  }

  /** A root on the heap is given with its recorded size. */
  ghost predicate RootsMatch(m: map<Key, Value>, roots: seq<AllocObject>) {
    forall i :: 0 <= i < |roots| && IsSeed(m, roots[i]) ==> roots[i].size == m[roots[i].ptr].bytes
  }

  lemma GivenIsRecorded(c: Context, m: map<Key, Value>, roots: seq<AllocObject>, t: set<Key>)
    requires RootsMatch(m, roots)
    ensures CompleteAsGiven(c, m, roots, t) <==> Complete(c, m, roots, t)
  {
    hide Edge, LiveSet, EdgesIn;
    forall k | Includes(c, m, roots, t) && k in m && SeedOf(m, roots, k) ensures EdgesIn(c, k, m[k].bytes, t) {
      var i :| 0 <= i < |roots| && IsSeed(m, roots[i]) && roots[i].ptr == k;
      assert RootDone(c, m, roots[i], t);
    }
  }

  /** What marking from `roots` arrives at: within every closed set that holds what was live,
      the roots and their targets, and itself such a set if the live set was closed and heap
      roots come with their recorded size. */
  ghost predicate Reached(c: Context, m: map<Key, Value>, roots: seq<AllocObject>, t: set<Key>) {
    && Includes(c, m, roots, t) && t <= m.Keys
    && (RootsMatch(m, roots) && Closed(c, m, LiveSet(m)) ==> Closed(c, m, t))
    && forall u {:trigger Includes(c, m, roots, u)} :: Includes(c, m, roots, u) && Closed(c, m, u) ==> t <= u
  }

  lemma CompleteReached(c: Context, m: map<Key, Value>, roots: seq<AllocObject>, t: set<Key>)
    requires CompleteAsGiven(c, m, roots, t) && t <= m.Keys
    requires forall u :: Complete(c, m, roots, u) ==> t <= u
    ensures Reached(c, m, roots, t)
  {
    hide EdgesIn, RootDone, LiveSet, RootsMatch, SeedOf;
    forall u {:trigger Includes(c, m, roots, u)} | Includes(c, m, roots, u) && Closed(c, m, u) ensures t <= u {
      assert Complete(c, m, roots, u);
    }
    if RootsMatch(m, roots) && Closed(c, m, LiveSet(m)) {
      GivenIsRecorded(c, m, roots, t);
      CompleteIsClosed(c, m, roots, t);
    }
  }

  // ----------------------------------------------------------------- several batches

  /** Searches give the same: the index differs in the tags of its values only. */
  ghost predicate SameSearch(c: Context, c': Context) {
    c' == c.(s := c'.s) && c'.s.table == c.s.table && SameSizes(c.s.store, c'.s.store)
  }

  lemma EdgesSame(c: Context, c': Context, p: Key, size: int, t: set<Key>)
    requires SameSearch(c, c')
    ensures EdgesIn(c', p, size, t) <==> EdgesIn(c, p, size, t)
  {
    hide Inside, WordAt;
    forall w: nat ensures Resolve(c', w) == Resolve(c, w) { InsideSame(c.s, c'.s, c.maxSize, w); }
    forall k ensures Edge(c', p, size, k) <==> Edge(c, p, size, k) { }
  }

  lemma SameIncludes(c: Context, c': Context, m: map<Key, Value>, t: set<Key>, roots: seq<AllocObject>, u: set<Key>)
    requires SameSearch(c, c') && LiveSet(Marked(m, t)) == t
    ensures Includes(c', Marked(m, t), roots, u) <==>
      t <= u && forall i :: 0 <= i < |roots| ==> RootDone(c, m, roots[i], u)
    ensures Closed(c', Marked(m, t), u) <==> Closed(c, m, u)
    ensures RootsMatch(Marked(m, t), roots) <==> RootsMatch(m, roots)
  {
    hide EdgesIn, LiveSet, SameSearch;
    var m' := Marked(m, t);
    forall k | k in m ensures m'[k].bytes == m[k].bytes { MarkedBytes(m, t, k); }
    hide Marked;
    MarkedBytes(m, t, 0);
    forall i | 0 <= i < |roots| ensures RootDone(c', m', roots[i], u) <==> RootDone(c, m, roots[i], u) {
      EdgesSame(c, c', roots[i].ptr, roots[i].size, u);
    }
    forall k | k in m ensures EdgesIn(c', k, m'[k].bytes, u) <==> EdgesIn(c, k, m[k].bytes, u) {
      EdgesSame(c, c', k, m[k].bytes, u);
    }
  }

  lemma RootDoneGrows(c: Context, m: map<Key, Value>, r: AllocObject, t: set<Key>, u: set<Key>)
    requires RootDone(c, m, r, t) && t <= u
    ensures RootDone(c, m, r, u)
  {
    hide Edge;
  }

  /** Marking from `more` after marking from `roots` is marking from both. */
  lemma NextBatch(c: Context, m: map<Key, Value>, roots: seq<AllocObject>, t: set<Key>,
                  c': Context, more: seq<AllocObject>, t': set<Key>)
    requires Reached(c, m, roots, t) && SameSearch(c, c') && LiveSet(Marked(m, t)) == t
    requires Reached(c', Marked(m, t), more, t')
    ensures Reached(c, m, roots + more, t')
  {
    hide RootDone, LiveSet, Marked, SameSearch, Closed, RootsMatch;
    var m', all := Marked(m, t), roots + more;
    MarkedBytes(m, t, 0);
    SameIncludes(c, c', m, t, more, t');
    SameIncludes(c, c', m, t, more, t);
    forall i | 0 <= i < |all| ensures RootDone(c, m, all[i], t') {
      if i < |roots| { RootDoneGrows(c, m, roots[i], t, t'); } else { assert all[i] == more[i - |roots|]; }
    }
    forall u {:trigger Includes(c, m, all, u)} | Includes(c, m, all, u) && Closed(c, m, u) ensures t' <= u {
      IncludesParts(c, m, roots, more, u);
      SameIncludes(c, c', m, t, more, u);
    }
    if RootsMatch(m, all) { MatchParts(m, roots, more); }
  }

  lemma IncludesParts(c: Context, m: map<Key, Value>, roots: seq<AllocObject>, more: seq<AllocObject>, u: set<Key>)
    requires Includes(c, m, roots + more, u)
    ensures Includes(c, m, roots, u) && forall i :: 0 <= i < |more| ==> RootDone(c, m, more[i], u)
  {
    hide RootDone;
    var all := roots + more;
    forall i | 0 <= i < |roots| ensures RootDone(c, m, roots[i], u) { assert all[i] == roots[i]; }
    forall i | 0 <= i < |more| ensures RootDone(c, m, more[i], u) { assert all[|roots| + i] == more[i]; }
  }

  lemma MatchParts(m: map<Key, Value>, roots: seq<AllocObject>, more: seq<AllocObject>)
    requires RootsMatch(m, roots + more)
    ensures RootsMatch(m, roots) && RootsMatch(m, more)
  {
    var all := roots + more;
    forall i | 0 <= i < |roots| && IsSeed(m, roots[i]) ensures roots[i].size == m[roots[i].ptr].bytes {
      assert all[i] == roots[i];
    }
    forall i | 0 <= i < |more| && IsSeed(m, more[i]) ensures more[i].size == m[more[i].ptr].bytes {
      assert all[|roots| + i] == more[i];
    }
  }

  lemma NoBatch(c: Context, m: map<Key, Value>)
    ensures Reached(c, m, [], LiveSet(m))
  {
    hide EdgesIn, RootDone;
  }

  /** All roots of a sequence of batches. */
  ghost function Flat(batches: seq<seq<AllocObject>>): seq<AllocObject> {
    if batches == [] then [] else Flat(batches[..|batches| - 1]) + batches[|batches| - 1]
  }

  lemma FlatMore(batches: seq<seq<AllocObject>>, i: int)
    requires 0 <= i < |batches|
    ensures Flat(batches[..i + 1]) == Flat(batches[..i]) + batches[i]
  {
    assert batches[..i + 1][..i] == batches[..i];
  }

  ghost predicate Sources(batches: seq<seq<AllocObject>>) {
    forall b :: b in batches ==> NonNegativeRoots(b)
  }

  ghost predicate NonNegativeRoots(roots: seq<AllocObject>) { forall i :: 0 <= i < |roots| ==> roots[i].ptr >= 0 }

  // --------------------------------------------------------------- ignored objects

  /** The roots made of the ignored objects: all of them and nothing else, with their sizes. */
  ghost predicate IgnoredRoots(m: map<Key, Value>, roots: seq<AllocObject>) {
    && (forall i :: 0 <= i < |roots| ==> IgnoredRoot(m, roots[i]))
    && (forall k {:trigger k in m} :: k in m && IsIgnored(m[k]) ==> SeedOf(m, roots, k))
  }

  ghost predicate IgnoredRoot(m: map<Key, Value>, r: AllocObject) {
    r.ptr in m && IsIgnored(m[r.ptr]) && r == AllocObject(r.ptr, m[r.ptr].bytes, MustBeOnHeap)
  }

  /** Marking does not change which objects are ignored. */
  lemma IgnoredMarked(m: map<Key, Value>, t: set<Key>, roots: seq<AllocObject>)
    ensures IgnoredRoots(Marked(m, t), roots) <==> IgnoredRoots(m, roots)
  {
    hide IsIgnored, SetLive;
    var m' := Marked(m, t);
    forall k | k in m ensures m'[k].bytes == m[k].bytes && IsIgnored(m'[k]) == IsIgnored(m[k]) {
      MarkedBytes(m, t, k);
      TagsIndependent(m[k], true);
    }
    hide Marked;
    MarkedBytes(m, t, 0);
    forall i | 0 <= i < |roots| ensures IgnoredRoot(m', roots[i]) <==> IgnoredRoot(m, roots[i]) { }
    forall i | 0 <= i < |roots| ensures IsSeed(m', roots[i]) <==> IsSeed(m, roots[i]) { }
    hide IsSeed;
    forall k ensures SeedOf(m', roots, k) <==> SeedOf(m, roots, k) {
      if i :| 0 <= i < |roots| && IsSeed(m, roots[i]) && roots[i].ptr == k { assert IsSeed(m', roots[i]); }
      if i :| 0 <= i < |roots| && IsSeed(m', roots[i]) && roots[i].ptr == k { assert IsSeed(m, roots[i]); }
    }
  }

  lemma SeedsIncluded(c: Context, m: map<Key, Value>, roots: seq<AllocObject>, t: set<Key>, k: Key)
    requires Includes(c, m, roots, t) && SeedOf(m, roots, k)
    ensures k in t
  {
    var i :| 0 <= i < |roots| && IsSeed(m, roots[i]) && roots[i].ptr == k;
    assert RootDone(c, m, roots[i], t);
  }

  // --------------------------------------------------------------- the flood fill

  ghost predicate AllIn(m: map<Key, Value>, keys: seq<Key>) { forall i :: 0 <= i < |keys| ==> keys[i] in m }

  ghost function KeySet(keys: seq<Key>): set<Key> { set i | 0 <= i < |keys| :: keys[i] }

  /** Between two pops: the first `n` roots are still to come, everything else that is
      newly live is scanned or among the pending `keys`, and nothing is live without need. */
  ghost predicate Filling(c: Context, m: map<Key, Value>, roots: seq<AllocObject>, n: int, keys: seq<Key>,
                          live: set<Key>)
  {
    && 0 <= n <= |roots| && LiveSet(m) <= live <= m.Keys && KeySet(keys) <= live && KeySet(keys) !! LiveSet(m)
    && (forall i :: n <= i < |roots| ==> RootDone(c, m, roots[i], live))
    && (forall k {:trigger k in live} ::
          k in live && k !in LiveSet(m) && k !in KeySet(keys) && !SeedOf(m, roots, k) ==>
            EdgesIn(c, k, m[k].bytes, live))
    && (forall t {:trigger Complete(c, m, roots, t)} :: Complete(c, m, roots, t) ==> live <= t)
  }

  /** What scanning one object does: its targets become live, the new ones are `fresh`. */
  ghost predicate Scanned(c: Context, m: map<Key, Value>, p: Key, size: int, live: set<Key>, live': set<Key>,
                          keys: seq<Key>)
  {
    && live' == live + KeySet(keys) && AllIn(m, keys) && KeySet(keys) !! live
    && (forall k {:trigger k in KeySet(keys)} :: k in KeySet(keys) ==> Edge(c, p, size, k))
    && EdgesIn(c, p, size, live')
  }

  lemma EdgesGrow(c: Context, p: Key, size: int, t: set<Key>, t': set<Key>)
    requires EdgesIn(c, p, size, t) && t <= t'
    ensures EdgesIn(c, p, size, t')
  {
  }

  lemma KeySetParts(keys: seq<Key>, new': seq<Key>)
    requires keys != []
    ensures KeySet(keys) == KeySet(keys[..|keys| - 1]) + {keys[|keys| - 1]}
    ensures KeySet(keys[..|keys| - 1] + new') == KeySet(keys[..|keys| - 1]) + KeySet(new')
  {
    var s, n := keys[..|keys| - 1], |keys| - 1;
    assert keys[n] in KeySet(keys);
    forall k | k in KeySet(s) ensures k in KeySet(s + new') && k in KeySet(keys) {
      var i :| 0 <= i < |s| && s[i] == k;
      assert (s + new')[i] == k && keys[i] == k;
    }
    forall k | k in KeySet(keys) && k != keys[n] ensures k in KeySet(s) {
      var i :| 0 <= i < |keys| && keys[i] == k;
      assert s[i] == k;
    }
    forall k | k in KeySet(new') ensures k in KeySet(s + new') {
      var i :| 0 <= i < |new'| && new'[i] == k;
      assert (s + new')[|s| + i] == k;
    }
  }

  lemma PopPending(c: Context, m: map<Key, Value>, roots: seq<AllocObject>, n: int, keys: seq<Key>, live: set<Key>,
                   live': set<Key>, new': seq<Key>)
    requires Filling(c, m, roots, n, keys, live) && keys != [] && keys[|keys| - 1] in m
    requires Scanned(c, m, keys[|keys| - 1], m[keys[|keys| - 1]].bytes, live, live', new')
    ensures Filling(c, m, roots, n, keys[..|keys| - 1] + new', live')
  {
    hide Edge, LiveSet, IsSeed, KeySet, EdgesIn, SeedOf;
    var k0 := keys[|keys| - 1];
    KeySetParts(keys, new');
    assert live' <= m.Keys by { KeysIn(m, new'); }
    forall i | n <= i < |roots| ensures RootDone(c, m, roots[i], live') {
      EdgesGrow(c, roots[i].ptr, roots[i].size, live, live');
    }
    forall k {:trigger k in live'} |
      k in live' && k !in LiveSet(m) && k !in KeySet(keys[..|keys| - 1] + new') && !SeedOf(m, roots, k)
      ensures EdgesIn(c, k, m[k].bytes, live')
    {
      if k != k0 { assert k in live; EdgesGrow(c, k, m[k].bytes, live, live'); }
    }
    forall t {:trigger Complete(c, m, roots, t)} | Complete(c, m, roots, t) ensures live' <= t {
      assert k0 in t;
      ScanNeeded(c, k0, m[k0].bytes, new', t);
    }
  }

  lemma KeysIn(m: map<Key, Value>, keys: seq<Key>)
    requires AllIn(m, keys)
    ensures KeySet(keys) <= m.Keys
  {
  }

  lemma ScanNeeded(c: Context, p: Key, size: int, keys: seq<Key>, t: set<Key>)
    requires EdgesIn(c, p, size, t)
    requires forall k {:trigger k in KeySet(keys)} :: k in KeySet(keys) ==> Edge(c, p, size, k)
    ensures KeySet(keys) <= t
  {
    hide Edge, KeySet;
  }

  lemma PopRoot(c: Context, m: map<Key, Value>, roots: seq<AllocObject>, n: int, live: set<Key>, live1: set<Key>,
                live': set<Key>, new': seq<Key>)
    requires Filling(c, m, roots, n, [], live) && n > 0
    requires live1 == if IsSeed(m, roots[n - 1]) then live + {roots[n - 1].ptr} else live
    requires Scanned(c, m, roots[n - 1].ptr, roots[n - 1].size, live1, live', new')
    ensures Filling(c, m, roots, n - 1, new', live')
  {
    hide Edge, LiveSet, EdgesIn;
    var r := roots[n - 1];
    assert KeySet([]) == {};
    hide KeySet;
    assert live' <= m.Keys by { KeysIn(m, new'); }
    forall i | n - 1 <= i < |roots| ensures RootDone(c, m, roots[i], live') {
      if i >= n { EdgesGrow(c, roots[i].ptr, roots[i].size, live, live'); }
    }
    forall k {:trigger k in live'} | k in live' && k !in LiveSet(m) && k !in KeySet(new') && !SeedOf(m, roots, k)
      ensures EdgesIn(c, k, m[k].bytes, live')
    {
      if k in live { EdgesGrow(c, k, m[k].bytes, live, live'); }
    }
    forall t {:trigger Complete(c, m, roots, t)} | Complete(c, m, roots, t) ensures live' <= t {
      assert RootDone(c, m, r, t);
      ScanNeeded(c, r.ptr, r.size, new', t);
    }
  }

  lemma Filled(c: Context, m: map<Key, Value>, roots: seq<AllocObject>, live: set<Key>)
    requires Filling(c, m, roots, 0, [], live)
    ensures CompleteAsGiven(c, m, roots, live) && forall t :: Complete(c, m, roots, t) ==> live <= t
  {
    assert KeySet([]) == {};
  }

  lemma StartFilling(c: Context, m: map<Key, Value>, roots: seq<AllocObject>)
    ensures Filling(c, m, roots, |roots|, [], LiveSet(m))
    ensures Marked(m, LiveSet(m)) == m
  {
    assert KeySet([]) == {};
    forall k | k in m ensures Marked(m, LiveSet(m))[k] == m[k] { TagsIndependent(m[k], true); }
  }

  // ------------------------------------------------------------- scanning one object

  /** The words below `x` are done: their targets are live, the new ones are `keys`. */
  ghost predicate SoFar(c: Context, m: map<Key, Value>, p: Key, size: int, live: set<Key>, live': set<Key>,
                        keys: seq<Key>, x: int)
  {
    && live' == live + KeySet(keys) && AllIn(m, keys) && KeySet(keys) !! live && live' <= m.Keys
    && (forall k {:trigger k in KeySet(keys)} :: k in KeySet(keys) ==> Edge(c, p, size, k))
    && (forall y {:trigger TargetIn(c, y, live')} :: WordAt(p, size, c.step, y) && y < x ==> TargetIn(c, y, live'))
  }

  ghost predicate TargetIn(c: Context, x: int, t: set<Key>) {
    Resolve(c, c.load(x)).Some? ==> Resolve(c, c.load(x)).value in t
  }

  lemma NothingScanned(c: Context, m: map<Key, Value>, p: Key, size: int, live: set<Key>)
    requires c.step > 0 && live <= m.Keys
    ensures SoFar(c, m, p, size, live, live, [], ScanStart(p, c.step))
    ensures ScanSize(p, size, c.step) < POINTER_SIZE ==> Scanned(c, m, p, size, live, live, [])
  {
    hide Resolve;
    assert KeySet([]) == {};
    forall y
      ensures WordAt(p, size, c.step, y) ==> y >= ScanStart(p, c.step) && ScanSize(p, size, c.step) >= POINTER_SIZE
    {
      ScanCovers(p, size, c.step, y);
    }
  }

  lemma OneMultiple(step: int, x: int, y: int)
    requires step > 0 && Aligned(x, step) && Aligned(y, step) && x <= y < x + step
    ensures x == y
  {
    var a, b := x / step, y / step;
    DivMod(x, step);
    DivMod(y, step);
    if a < b { Scaled(step, b, a); } else { Scaled(step, b, a); }
  }

  lemma NextAligned(step: int, x: int)
    requires step > 0 && Aligned(x, step)
    ensures Aligned(x + step, step)
  {
    DivMod(x, step);
    Distribute(x / step, 1, step);
    MultipleMod(x / step + 1, step);
  }

  /** The word at `x` leads nowhere new. */
  lemma WordSkipped(c: Context, m: map<Key, Value>, p: Key, size: int, live: set<Key>, live': set<Key>, keys: seq<Key>,
                    x: int)
    requires SoFar(c, m, p, size, live, live', keys, x) && c.step > 0 && Aligned(x, c.step) && TargetIn(c, x, live')
    ensures SoFar(c, m, p, size, live, live', keys, x + c.step)
  {
    hide Resolve, KeySet, Edge, TargetIn;
    forall y {:trigger TargetIn(c, y, live')} | WordAt(p, size, c.step, y) && y < x + c.step
      ensures TargetIn(c, y, live')
    {
      if y >= x { OneMultiple(c.step, x, y); }
    }
  }

  lemma WordFollowed(c: Context, m: map<Key, Value>, p: Key, size: int, live: set<Key>, live': set<Key>,
                     keys: seq<Key>, x: int, k: Key)
    requires SoFar(c, m, p, size, live, live', keys, x) && c.step > 0 && WordAt(p, size, c.step, x)
    requires Resolve(c, c.load(x)) == Some(k) && k in m && k !in live'
    ensures SoFar(c, m, p, size, live, live' + {k}, keys + [k], x + c.step)
  {
    hide Resolve;
    assert Edge(c, p, size, k);
    KeySetMore(keys, k);
    assert SoFar(c, m, p, size, live, live' + {k}, keys + [k], x) by {
      hide KeySet, Edge;
      forall y {:trigger TargetIn(c, y, live' + {k})} | WordAt(p, size, c.step, y) && y < x
        ensures TargetIn(c, y, live' + {k})
      {
        assert TargetIn(c, y, live');
      }
    }
    WordSkipped(c, m, p, size, live, live' + {k}, keys + [k], x);
  }

  lemma KeySetMore(keys: seq<Key>, k: Key)
    ensures KeySet(keys + [k]) == KeySet(keys) + {k}
  {
    var s := keys + [k];
    assert s[|keys|] == k;
    forall x | x in KeySet(keys) ensures x in KeySet(s) {
      var i :| 0 <= i < |keys| && keys[i] == x;
      assert s[i] == x;
    }
  }

  lemma AllScanned(c: Context, m: map<Key, Value>, p: Key, size: int, live: set<Key>, live': set<Key>, keys: seq<Key>,
                   x: int)
    requires SoFar(c, m, p, size, live, live', keys, x) && c.step > 0
    requires x > ScanStart(p, c.step) + ScanSize(p, size, c.step) - POINTER_SIZE
    ensures Scanned(c, m, p, size, live, live', keys)
  {
    hide Resolve, KeySet;
    forall k | Edge(c, p, size, k) ensures k in live' {
      var y :| WordAt(p, size, c.step, y) && Resolve(c, c.load(y)) == Some(k);
      ScanCovers(p, size, c.step, y);
      assert TargetIn(c, y, live');
    }
  }

  lemma MarkedMore(m: map<Key, Value>, live: set<Key>, k: Key)
    requires k in m && LiveSet(m) <= live
    ensures IsLive(Marked(m, live)[k]) <==> k in live
    ensures Marked(m, live)[k := SetLive(Marked(m, live)[k], true)] == Marked(m, live + {k})
    ensures k in live ==> Marked(m, live + {k}) == Marked(m, live)
  {
    TagsIndependent(m[k], true);
    TagsIndependent(SetLive(m[k], true), true);
    assert k in live ==> live + {k} == live;
  }

  // ------------------------------------------------------------------ the checker

  class LeakChecker {
    const profile: HeapProfile
    const load: int -> nat
    const step: int
    const lo: int
    const hi: int
    const maxSize: int
    // The stack of objects to scan.
    var live: seq<AllocObject>

    constructor (profile: HeapProfile, load: int -> nat, step: int, lo: int, hi: int, maxSize: int)
      ensures this.profile == profile && this.load == load && this.step == step && live == []
    {
      this.profile, this.load, this.step, this.lo, this.hi, this.maxSize := profile, load, step, lo, hi, maxSize;
      live := [];
    }

    ghost function Here(): Context
      reads profile, profile.addresses
    {
      Context(profile.addresses.s, load, step, lo, hi, maxSize)
    }

    /** The index is that of `c`, with the keys of `marked` marked in the values `m`. */
    ghost predicate Running(c: Context, m: map<Key, Value>, marked: set<Key>)
      reads profile, profile.addresses
    {
      && profile.Valid() && step > 0 && c == Here().(s := c.s)
      && profile.addresses.s.table == c.s.table && SameSizes(c.s.store, profile.addresses.s.store)
      && profile.addresses.View() == Marked(m, marked) && LiveSet(m) <= marked <= m.Keys
    }

    /** The heap test on a word and, if it passes, the allocation the word points into. */
    method HaveOnHeap(word: nat, ghost c: Context, ghost m: map<Key, Value>, ghost marked: set<Key>)
      returns (res: Option<Key>, size: int)
      requires Running(c, m, marked)
      ensures res == Resolve(c, word)
      ensures res.Some? ==> res.value in m && res.value >= 0 && size == m[res.value].bytes
    {
      hide Ok, Contents, Inside, ProfileOk, BucketOf, IsLive, SetLive, LiveSet;
      res, size := None, 0;
      if lo <= word <= hi {
        InsideSame(c.s, profile.addresses.s, maxSize, word);
        var e := profile.addresses.FindInside(maxSize, word);
        if e.Some? {
          InsideListed(profile.addresses.s, profile.addresses.at, maxSize, word);
          ContentsAt(profile.addresses.s, profile.addresses.at);
          var x := profile.addresses.s.store[e.value];
          MarkedBytes(m, marked, x.key);
          res, size := Some(x.key), x.value.bytes;
        }
      }
    }

    /** Mark what a word leads to, and return it if it was not live. */
    method Visit(word: nat, ghost c: Context, ghost m: map<Key, Value>, ghost marked: set<Key>)
      returns (res: Option<AllocObject>)
      requires Running(c, m, marked)
      modifies profile.addresses`s
      ensures res.None? ==> Running(c, m, marked) && (Resolve(c, word).Some? ==> Resolve(c, word).value in marked)
      ensures res.Some? ==>
        && Resolve(c, word) == Some(res.value.ptr) && res.value.ptr in m && res.value.ptr !in marked
        && res.value == AllocObject(res.value.ptr, m[res.value.ptr].bytes, IgnoredOnHeap)
        && Running(c, m, marked + {res.value.ptr})
    {
      hide Ok, Contents, ProfileOk, BucketOf, IsLive, SetLive, LiveSet, Resolve, Marked, SameSizes;
      res := None;
      var k, bytes := HaveOnHeap(word, c, m, marked);
      if k.Some? {
        ghost var store := profile.addresses.s.store;
        MarkedBytes(m, marked, k.value);
        MarkedMore(m, marked, k.value);
        var isNew := profile.MarkAsLive(k.value);
        SameSizesTrans(c.s.store, store, profile.addresses.s.store);
        if isNew { res := Some(AllocObject(k.value, bytes, IgnoredOnHeap)); }
      }
    }

    /** Mark and push every recorded allocation that an aligned word of the object leads to. */
    method Scan(p: Key, size: int, ghost c: Context, ghost m: map<Key, Value>, ghost marked: set<Key>)
      returns (count: int, ghost marked': set<Key>, ghost keys: seq<Key>)
      requires Running(c, m, marked)
      modifies this`live, profile.addresses`s
      ensures Running(c, m, marked') && Scanned(c, m, p, size, marked, marked', keys) && |marked'| == |marked| + count
      ensures live == old(live) + Items(m, keys)
    {
      hide LeakChecker.Running, Resolve, Scanned, SoFar, KeySet, Aligned, ScanStart, ScanSize, Items;
      assert Items(m, []) == [] by { NoItems(m); }
      RunningStep(c, m, marked);
      count, marked', keys := 0, marked, [];
      NothingScanned(c, m, p, size, marked);
      var cursor, left := ScanStart(p, step), ScanSize(p, size, step);
      if left < POINTER_SIZE { return; }
      StartIsLeast(p, step, p);
      var last := cursor + left - POINTER_SIZE;
      while cursor <= last
        invariant Aligned(cursor, step) && cursor >= ScanStart(p, step)
        invariant Running(c, m, marked') && SoFar(c, m, p, size, marked, marked', keys, cursor)
        invariant |marked'| == |marked| + count && AllIn(m, keys) && live == old(live) + Items(m, keys)
        decreases last - cursor
      {
        ScanCovers(p, size, step, cursor);
        NextAligned(step, cursor);
        var res := Visit(load(cursor), c, m, marked');
        if res.Some? {
          var k := res.value.ptr;
          WordFollowed(c, m, p, size, marked, marked', keys, cursor, k);
          ItemsMore(m, keys, k);
          count := count + 1;
          live := live + [res.value];
          marked', keys := marked' + {k}, keys + [k];
        } else {
          WordSkipped(c, m, p, size, marked, marked', keys, cursor);
        }
        cursor := cursor + step;
      }
      AllScanned(c, m, p, size, marked, marked', keys, cursor);
    }

    /** A root that must be on the heap is marked itself. */
    method MarkRoot(r: AllocObject, ghost c: Context, ghost m: map<Key, Value>, ghost marked: set<Key>)
      returns (count: int, ghost marked': set<Key>)
      requires Running(c, m, marked) && r.ptr >= 0
      modifies profile.addresses`s
      ensures marked' == if IsSeed(m, r) then marked + {r.ptr} else marked
      ensures Running(c, m, marked') && |marked'| == |marked| + count
    {
      hide Ok, Contents, ProfileOk, BucketOf, IsLive, SetLive, LiveSet, Marked, SameSizes;
      count, marked' := 0, marked;
      if r.place == MustBeOnHeap {
        ghost var store := profile.addresses.s.store;
        MarkedBytes(m, marked, r.ptr);
        if r.ptr in m { MarkedMore(m, marked, r.ptr); }
        var isNew := profile.MarkAsLive(r.ptr);
        SameSizesTrans(c.s.store, store, profile.addresses.s.store);
        if isNew { count := 1; }
        marked' := if IsSeed(m, r) then marked + {r.ptr} else marked;
        assert r.ptr in marked ==> marked + {r.ptr} == marked;
      }
    }

    /** The mark phase: afterwards the live objects are those that were live, the roots, and
        what can be reached from them; see CompleteIsClosed.  A root on the heap that comes
        with another size than the recorded one may be scanned over the given size only. */
    method IgnoreLiveObjects() returns (count: int)
      requires profile.Valid() && step > 0
      requires forall i :: 0 <= i < |live| ==> live[i].ptr >= 0
      modifies this`live, profile.addresses`s
      ensures profile.Valid() && live == []
      ensures
        var c, m, roots := old(Here()), old(profile.addresses.View()), old(live);
        var t := LiveSet(profile.addresses.View());
        && profile.addresses.View() == Marked(m, t) && count == |t| - |LiveSet(m)|
        && CompleteAsGiven(c, m, roots, t) && (RootsMatch(m, roots) ==> Complete(c, m, roots, t))
        && (forall u :: Complete(c, m, roots, u) ==> t <= u)
        && Reached(c, m, roots, t) && SameSearch(c, Here())
    {
      hide LeakChecker.Running, Filling, Complete, CompleteAsGiven, KeySet, Marked, RootsMatch, LiveSet;
      hide HeapProfile.Valid, StackIs, NonNegative;
      ghost var c, m, roots := Here(), profile.addresses.View(), live;
      ghost var n, keys, marked := |roots|, [], LiveSet(m);
      StartFilling(c, m, roots);
      StartRunning(c, m, roots);
      count := 0;
      while live != []
        invariant Running(c, m, marked) && Filling(c, m, roots, n, keys, marked) && StackIs(m, roots, n, keys, live)
        invariant count == |marked| - |LiveSet(m)|
        decreases |m.Keys - marked|, |live|
      {
        var more;
        more, n, keys, marked := Pop(c, m, roots, n, keys, marked);
        count := count + more;
      }
      StackEmpty(m, roots, n, keys);
      Filled(c, m, roots, marked);
      if RootsMatch(m, roots) { GivenIsRecorded(c, m, roots, marked); }
      EndRunning(c, m, marked);
      CompleteReached(c, m, roots, marked);
    }

    /** Mark, then snapshot: the snapshot holds exactly the recorded objects that are neither
        reached nor in `base`, and nothing stays marked.  Ignored objects stay out of it if
        they are among the roots. */
    method FindLeaks(base: AddressMap?) returns (snap: AddressMap, total: Stats, ghost reachable: set<Key>)
      requires profile.Valid() && step > 0 && NonNegativeRoots(live)
      requires base != null ==> base.Valid() && base != profile.addresses
      modifies this`live, profile.addresses`s
      ensures profile.Valid() && fresh(snap) && snap.Valid() && LiveSet(profile.addresses.View()) == {}
      ensures var c, m, roots := old(Here()), old(profile.addresses.View()), old(live);
        && Reached(c, m, roots, reachable)
        && (LiveSet(m) == {} && RootsMatch(m, roots) ==> Closed(c, m, reachable))
        && snap.View().Keys == m.Keys - reachable - (if base == null then {} else base.View().Keys)
        && total.allocs == |snap.View()|
        && ((forall k :: k in m && IsIgnored(m[k]) ==> SeedOf(m, roots, k)) ==>
              forall k :: k in snap.View() ==> !IsIgnored(m[k]))
    {
      hide HeapProfile.Valid, Complete, CompleteAsGiven, Closed, LiveSet, Marked, RootsMatch, LeakMap, Cleared, Ok;
      hide EdgesIn, SeedOf, Contents, Reached, SameSearch, IsIgnored;
      ghost var c, m, roots := Here(), profile.addresses.View(), live;
      var count := IgnoreLiveObjects();
      reachable := LiveSet(profile.addresses.View());
      ReachedIncludes(c, m, roots, reachable);
      FromNothing(c, m, roots, reachable);
      snap, total := Sweep(base, m, reachable);
      forall k | SeedOf(m, roots, k) ensures k in reachable { SeedsIncluded(c, m, roots, reachable, k); }
    }

    /** The snapshot of what is not marked. */
    method Sweep(base: AddressMap?, ghost m: map<Key, Value>, ghost marked: set<Key>)
      returns (snap: AddressMap, total: Stats)
      requires profile.Valid() && (base != null ==> base.Valid() && base != profile.addresses)
      requires profile.addresses.View() == Marked(m, marked)
      requires LiveSet(m) <= marked && LiveSet(Marked(m, marked)) == marked
      modifies profile.addresses`s
      ensures profile.Valid() && fresh(snap) && snap.Valid() && LiveSet(profile.addresses.View()) == {}
      ensures snap.View().Keys == m.Keys - marked - (if base == null then {} else base.View().Keys)
      ensures total.allocs == |snap.View()|
    {
      hide HeapProfile.Valid, LiveSet, Marked, LeakMap, Cleared, Ok, Contents;
      snap, total := profile.NonLiveSnapshot(base);
      SnapshotAfterMark(m, marked, if base == null then map[] else base.View());
      CountIsSize(snap.View());
    }

    /** Mark from one batch of roots after the other. */
    method MarkBatches(batches: seq<seq<AllocObject>>, ghost c: Context, ghost m: map<Key, Value>,
                       ghost roots: seq<AllocObject>)
      requires profile.Valid() && step > 0 && live == [] && Sources(batches) && SameSearch(c, Here())
      requires var t := LiveSet(profile.addresses.View());
        profile.addresses.View() == Marked(m, t) && Reached(c, m, roots, t)
      modifies this`live, profile.addresses`s
      ensures profile.Valid() && live == [] && SameSearch(c, Here())
      ensures var t := LiveSet(profile.addresses.View());
        profile.addresses.View() == Marked(m, t) && Reached(c, m, roots + Flat(batches), t)
    {
      hide HeapProfile.Valid, LiveSet, Marked, Reached, SameSearch, Complete, CompleteAsGiven, RootsMatch;
      assert roots + Flat(batches[..0]) == roots;
      for i := 0 to |batches|
        invariant profile.Valid() && live == [] && SameSearch(c, Here())
        invariant var t := LiveSet(profile.addresses.View());
          profile.addresses.View() == Marked(m, t) && Reached(c, m, roots + Flat(batches[..i]), t)
      {
        FlatMore(batches, i);
        assert roots + Flat(batches[..i + 1]) == roots + Flat(batches[..i]) + batches[i];
        live := batches[i];
        MarkPushed(c, m, roots + Flat(batches[..i]));
      }
      assert batches[..|batches|] == batches;
    }

    /** After marking from `roots`, mark from what has been pushed since. */
    method MarkPushed(ghost c: Context, ghost m: map<Key, Value>, ghost roots: seq<AllocObject>)
      requires profile.Valid() && step > 0 && NonNegativeRoots(live) && SameSearch(c, Here())
      requires var t := LiveSet(profile.addresses.View());
        profile.addresses.View() == Marked(m, t) && Reached(c, m, roots, t)
      modifies this`live, profile.addresses`s
      ensures profile.Valid() && live == [] && SameSearch(c, Here())
      ensures var t := LiveSet(profile.addresses.View());
        profile.addresses.View() == Marked(m, t) && Reached(c, m, roots + old(live), t)
    {
      hide HeapProfile.Valid, LiveSet, Marked, Reached, SameSearch, Complete, CompleteAsGiven, RootsMatch;
      ghost var c1, t, batch := Here(), LiveSet(profile.addresses.View()), live;
      var count := IgnoreLiveObjects();
      ghost var t' := LiveSet(profile.addresses.View());
      NextBatch(c, m, roots, t, c1, batch, t');
      MarkedTwice(c1, m, t, batch, t');
      SameSearchTrans(c, c1, Here());
    }

    /** Push every ignored object as a root. */
    method PushIgnored() returns (ghost added: seq<AllocObject>)
      requires profile.Valid()
      modifies this`live
      ensures live == old(live) + added && NonNegativeRoots(added) && IgnoredRoots(profile.addresses.View(), added)
    {
      hide Ok, Contents, IsIgnored, NoRepeats, PushedFrom, HeapProfile.Valid;
      assert profile.addresses.Valid() by { ProfileIndex(); }
      added := [];
      ContentsAt(profile.addresses.s, profile.addresses.at);
      ghost var m, store := profile.addresses.View(), profile.addresses.s.store;
      var visited := profile.addresses.Iterate();
      NonePushed(m, store, visited);
      for i := 0 to |visited|
        invariant live == old(live) + added && PushedFrom(m, store, visited, i, added)
      {
        var x := profile.addresses.s.store[visited[i]];
        assert visited[i] in visited;
        OnePushed(m, store, visited, i, added);
        if IsIgnored(x.value) {
          live := live + [AllocObject(x.key, x.value.bytes, MustBeOnHeap)];
          added := added + [AllocObject(x.key, x.value.bytes, MustBeOnHeap)];
        }
      }
      AllPushed(m, store, profile.addresses.at, visited, added);
    }

    lemma ProfileIndex()
      requires profile.Valid()
      ensures profile.addresses.Valid()
    {
    }

    /** The leak check: mark from batches of roots, from the ignored objects and from further
        batches, then report.  The order of the batches does not matter, and no ignored
        object is reported. */
    method CheckLeaks(before: seq<seq<AllocObject>>, after: seq<seq<AllocObject>>, base: AddressMap?)
      returns (snap: AddressMap, total: Stats, ghost ignored: seq<AllocObject>, ghost reachable: set<Key>)
      requires profile.Valid() && step > 0 && live == [] && Sources(before) && Sources(after)
      requires base != null ==> base.Valid() && base != profile.addresses
      modifies this`live, profile.addresses`s
      ensures profile.Valid() && fresh(snap) && snap.Valid() && LiveSet(profile.addresses.View()) == {}
      ensures
        var c, m := old(Here()), old(profile.addresses.View());
        var roots := Flat(before) + ignored + Flat(after);
        && IgnoredRoots(m, ignored) && Reached(c, m, roots, reachable)
        && (LiveSet(m) == {} && RootsMatch(m, roots) ==> Closed(c, m, reachable))
        && snap.View().Keys == m.Keys - reachable - (if base == null then {} else base.View().Keys)
        && total.allocs == |snap.View()|
        && forall k :: k in snap.View() ==> !IsIgnored(m[k])
    {
      hide HeapProfile.Valid, LiveSet, Marked, Reached, SameSearch, IgnoredRoots, IsIgnored, Sources, NonNegativeRoots;
      ghost var c, m := Here(), profile.addresses.View();
      StartBatches(c, m);
      MarkBatches(before, c, m, []);
      assert [] + Flat(before) == Flat(before);
      IgnoredMarkedAll(m, LiveSet(profile.addresses.View()));
      ignored := PushIgnored();
      assert [] + ignored == ignored;
      MarkPushed(c, m, Flat(before));
      MarkBatches(after, c, m, Flat(before) + ignored);
      reachable := LiveSet(profile.addresses.View());
      ReachedIncludes(c, m, Flat(before) + ignored + Flat(after), reachable);
      FromNothing(c, m, Flat(before) + ignored + Flat(after), reachable);
      snap, total := Sweep(base, m, reachable);
      forall k | k in snap.View() ensures !IsIgnored(m[k]) {
        IgnoredReached(c, m, Flat(before), ignored, Flat(after), reachable);
      }
    }

    /** One round: pop an object, mark it if it must be on the heap, scan it. */
    method Pop(ghost c: Context, ghost m: map<Key, Value>, ghost roots: seq<AllocObject>, ghost n: int,
               ghost keys: seq<Key>, ghost marked: set<Key>)
      returns (count: int, ghost n': int, ghost keys': seq<Key>, ghost marked': set<Key>)
      requires Running(c, m, marked) && Filling(c, m, roots, n, keys, marked) && StackIs(m, roots, n, keys, live)
      requires live != []
      requires NonNegative(m, roots)
      modifies this`live, profile.addresses`s
      ensures Running(c, m, marked') && Filling(c, m, roots, n', keys', marked') && StackIs(m, roots, n', keys', live)
      ensures |marked'| == |marked| + count
      ensures |m.Keys - marked'| < |m.Keys - marked| || (marked' == marked && |live| < old(|live|))
    {
      hide LeakChecker.Running, Filling, Scanned, KeySet, Items, StackIs, NonNegative, AllIn, IsSeed;
      ghost var stack := live;
      var item := live[|live| - 1];
      TopItem(m, roots, n, keys, live);
      live := live[..|live| - 1];
      var more, marked1 := MarkRoot(item, c, m, marked);
      var found;
      ghost var new';
      found, marked', new' := Scan(item.ptr, item.size, c, m, marked1);
      count := more + found;
      n', keys' := if keys != [] then n else n - 1, NextKeys(keys, new');
      Popped(c, m, roots, n, keys, stack, marked, marked1, marked', new');
    }

    lemma StartRunning(c: Context, m: map<Key, Value>, roots: seq<AllocObject>)
      requires profile.Valid() && step > 0 && c == Here() && m == profile.addresses.View() && Marked(m, LiveSet(m)) == m
      requires forall i :: 0 <= i < |roots| ==> roots[i].ptr >= 0
      ensures Running(c, m, LiveSet(m)) && NonNegative(m, roots) && StackIs(m, roots, |roots|, [], roots)
    {
      ContentsAt(profile.addresses.s, profile.addresses.at);
    }

    lemma EndRunning(c: Context, m: map<Key, Value>, marked: set<Key>)
      requires Running(c, m, marked)
      ensures profile.Valid() && LiveSet(profile.addresses.View()) == marked && marked <= m.Keys
      ensures profile.addresses.View() == Marked(m, marked) && SameSearch(c, Here())
    {
      LiveOfMarked(m, marked);
    }

    lemma RunningStep(c: Context, m: map<Key, Value>, marked: set<Key>)
      requires Running(c, m, marked)
      ensures step > 0 && c.step == step && c.load == load && marked <= m.Keys
    {
    }
  }

  /** What is pushed for newly marked keys. */
  ghost function Items(m: map<Key, Value>, keys: seq<Key>): seq<AllocObject>
    requires AllIn(m, keys)
  {
    seq(|keys|, i requires 0 <= i < |keys| => AllocObject(keys[i], m[keys[i]].bytes, IgnoredOnHeap))
  }

  /** The stack holds the first `n` roots and, above them, newly marked objects. */
  ghost predicate StackIs(m: map<Key, Value>, roots: seq<AllocObject>, n: int, keys: seq<Key>, stack: seq<AllocObject>)
  {
    0 <= n <= |roots| && AllIn(m, keys) && stack == roots[..n] + Items(m, keys)
  }

  ghost predicate NonNegative(m: map<Key, Value>, roots: seq<AllocObject>) {
    (forall k :: k in m ==> k >= 0) && forall i :: 0 <= i < |roots| ==> roots[i].ptr >= 0
  }

  lemma StackEmpty(m: map<Key, Value>, roots: seq<AllocObject>, n: int, keys: seq<Key>)
    requires StackIs(m, roots, n, keys, [])
    ensures n == 0 && keys == []
  {
    assert |roots[..n] + Items(m, keys)| == n + |keys|;
  }

  lemma ItemsJoin(m: map<Key, Value>, a: seq<Key>, b: seq<Key>)
    requires AllIn(m, a) && AllIn(m, b)
    ensures AllIn(m, a + b) && Items(m, a + b) == Items(m, a) + Items(m, b)
  {
  }

  /** The top of the stack is the last pending object, or else the last root to come. */
  lemma TopItem(m: map<Key, Value>, roots: seq<AllocObject>, n: int, keys: seq<Key>, stack: seq<AllocObject>)
    requires StackIs(m, roots, n, keys, stack) && stack != [] && NonNegative(m, roots)
    ensures stack[|stack| - 1].ptr >= 0
    ensures keys != [] ==>
      && keys[|keys| - 1] in m && AllIn(m, keys[..|keys| - 1])
      && stack[..|stack| - 1] == roots[..n] + Items(m, keys[..|keys| - 1])
      && stack[|stack| - 1] == AllocObject(keys[|keys| - 1], m[keys[|keys| - 1]].bytes, IgnoredOnHeap)
    ensures keys == [] ==> n > 0 && stack[|stack| - 1] == roots[n - 1] && stack[..|stack| - 1] == roots[..n - 1]
  {
    if keys != [] { assert Items(m, keys[..|keys| - 1]) == Items(m, keys)[..|keys| - 1]; }
  }

  /** Either something new is live, or nothing was pushed. */
  lemma ScanProgress(c: Context, m: map<Key, Value>, p: Key, size: int, live: set<Key>, live1: set<Key>,
                     live2: set<Key>, keys: seq<Key>)
    requires Scanned(c, m, p, size, live1, live2, keys) && live <= live1 && live <= m.Keys
    requires live1 <= m.Keys
    ensures live2 == live ==> keys == []
    ensures live2 != live ==> |m.Keys - live2| < |m.Keys - live|
    ensures AllIn(m, keys) && forall i :: 0 <= i < |keys| ==> keys[i] in m
  {
    hide Edge, EdgesIn;
    if keys != [] { assert keys[0] in KeySet(keys); }
    KeysIn(m, keys);
    if live2 != live {
      assert m.Keys - live2 < m.Keys - live;
      SubsetSize(m.Keys - live2, m.Keys - live);
    }
  }

  ghost function NextKeys(keys: seq<Key>, new': seq<Key>): seq<Key> {
    if keys != [] then keys[..|keys| - 1] + new' else new'
  }

  lemma Popped(c: Context, m: map<Key, Value>, roots: seq<AllocObject>, n: int, keys: seq<Key>, stack: seq<AllocObject>,
               live: set<Key>, live1: set<Key>, live': set<Key>, new': seq<Key>)
    requires StackIs(m, roots, n, keys, stack) && Filling(c, m, roots, n, keys, live) && stack != []
    requires NonNegative(m, roots)
    requires var r := stack[|stack| - 1];
      && live1 == (if IsSeed(m, r) then live + {r.ptr} else live)
      && Scanned(c, m, r.ptr, r.size, live1, live', new')
    ensures AllIn(m, new')
    ensures Filling(c, m, roots, if keys != [] then n else n - 1, NextKeys(keys, new'), live')
    ensures StackIs(m, roots, if keys != [] then n else n - 1, NextKeys(keys, new'),
                    stack[..|stack| - 1] + Items(m, new'))
    ensures |m.Keys - live'| < |m.Keys - live| || (live' == live && |Items(m, new')| == 0)
  {
    hide Scanned, KeySet, Items, LiveSet, Filling, StackIs, NonNegative, IsSeed, NextKeys;
    var r := stack[|stack| - 1];
    TopItem(m, roots, n, keys, stack);
    LiveBounds(c, m, roots, n, keys, live, r);
    ScanProgress(c, m, r.ptr, r.size, live, live1, live', new');
    NoItems(m);
    NextStack(m, roots, n, keys, stack, new');
    if keys != [] {
      NotASeed(m, r);
      PopPending(c, m, roots, n, keys, live, live', new');
    } else {
      PopRoot(c, m, roots, n, live, live1, live', new');
    }
    NextKeysIs(keys, new');
  }

  lemma NotASeed(m: map<Key, Value>, r: AllocObject)
    requires r.place == IgnoredOnHeap
    ensures !IsSeed(m, r)
  {
  }

  lemma NextKeysIs(keys: seq<Key>, new': seq<Key>)
    ensures NextKeys(keys, new') == if keys != [] then keys[..|keys| - 1] + new' else new'
  {
  }

  lemma LiveBounds(c: Context, m: map<Key, Value>, roots: seq<AllocObject>, n: int, keys: seq<Key>, live: set<Key>,
                   r: AllocObject)
    requires Filling(c, m, roots, n, keys, live)
    ensures live <= m.Keys && (IsSeed(m, r) ==> live + {r.ptr} <= m.Keys)
  {
  }

  lemma NextStack(m: map<Key, Value>, roots: seq<AllocObject>, n: int, keys: seq<Key>, stack: seq<AllocObject>,
                  new': seq<Key>)
    requires StackIs(m, roots, n, keys, stack) && stack != [] && AllIn(m, new') && NonNegative(m, roots)
    ensures StackIs(m, roots, if keys != [] then n else n - 1, NextKeys(keys, new'),
                    stack[..|stack| - 1] + Items(m, new'))
  {
    hide Items, NonNegative;
    TopItem(m, roots, n, keys, stack);
    if keys != [] {
      ItemsJoin(m, keys[..|keys| - 1], new');
      assert stack[..|stack| - 1] + Items(m, new') == roots[..n] + Items(m, keys[..|keys| - 1] + new');
    }
  }

  lemma SubsetSize(a: set<Key>, b: set<Key>)
    requires a < b
    ensures |a| < |b|
  {
    assert b == a + (b - a);
    assert |b| == |a| + |b - a|;
  }

  lemma NoItems(m: map<Key, Value>)
    ensures Items(m, []) == []
  {
  }

  lemma ItemsMore(m: map<Key, Value>, keys: seq<Key>, k: Key)
    requires AllIn(m, keys) && k in m
    ensures AllIn(m, keys + [k])
    ensures Items(m, keys + [k]) == Items(m, keys) + [AllocObject(k, m[k].bytes, IgnoredOnHeap)]
  {
  }

  lemma ReachedIncludes(c: Context, m: map<Key, Value>, roots: seq<AllocObject>, t: set<Key>)
    requires Reached(c, m, roots, t)
    ensures Includes(c, m, roots, t) && LiveSet(m) <= t
  {
  }

  lemma FromNothing(c: Context, m: map<Key, Value>, roots: seq<AllocObject>, t: set<Key>)
    requires Reached(c, m, roots, t)
    ensures LiveSet(m) == {} && RootsMatch(m, roots) ==> Closed(c, m, t)
  {
    hide EdgesIn, Includes, RootsMatch;
  }

  lemma StartBatches(c: Context, m: map<Key, Value>)
    ensures SameSearch(c, c) && Marked(m, LiveSet(m)) == m && Reached(c, m, [], LiveSet(m))
  {
    StartFilling(c, m, []);
    NoBatch(c, m);
  }

  lemma SameSearchTrans(c: Context, c': Context, c'': Context)
    requires SameSearch(c, c') && SameSearch(c', c'')
    ensures SameSearch(c, c'')
  {
    SameSizesTrans(c.s.store, c'.s.store, c''.s.store);
  }

  lemma MarkedTwice(c: Context, m: map<Key, Value>, t: set<Key>, roots: seq<AllocObject>, t': set<Key>)
    requires LiveSet(Marked(m, t)) == t && Reached(c, Marked(m, t), roots, t')
    ensures Marked(Marked(m, t), t') == Marked(m, t')
  {
    hide RootDone, Closed, RootsMatch;
    assert t <= t';
    hide Reached, LiveSet;
    forall k | k in m ensures Marked(Marked(m, t), t')[k] == Marked(m, t')[k] {
      TagsIndependent(m[k], true);
      TagsIndependent(SetLive(m[k], true), true);
    }
  }

  lemma IgnoredMarkedAll(m: map<Key, Value>, t: set<Key>)
    ensures forall roots :: IgnoredRoots(Marked(m, t), roots) <==> IgnoredRoots(m, roots)
  {
    forall roots ensures IgnoredRoots(Marked(m, t), roots) <==> IgnoredRoots(m, roots) { IgnoredMarked(m, t, roots); }
  }

  /** What is ignored is reached. */
  lemma IgnoredReached(c: Context, m: map<Key, Value>, before: seq<AllocObject>, ignored: seq<AllocObject>,
                       after: seq<AllocObject>, t: set<Key>)
    requires IgnoredRoots(m, ignored) && Reached(c, m, before + ignored + after, t)
    ensures forall k :: k in m && IsIgnored(m[k]) ==> k in t
  {
    hide EdgesIn, Closed, LiveSet, IsIgnored, RootsMatch;
    var all := before + ignored + after;
    forall k | k in m && IsIgnored(m[k]) ensures k in t {
      var i :| 0 <= i < |ignored| && IsSeed(m, ignored[i]) && ignored[i].ptr == k;
      assert all[|before| + i] == ignored[i];
      SeedsIncluded(c, m, all, t, k);
    }
  }

  /** The ignored objects among the first `i` entries have been pushed. */
  ghost predicate PushedFrom(m: map<Key, Value>, store: Store, visited: seq<EntryRef>, i: int,
                             added: seq<AllocObject>)
  {
    && 0 <= i <= |visited| && NonNegativeRoots(added) && (forall j :: 0 <= j < |added| ==> IgnoredRoot(m, added[j]))
    && forall j :: 0 <= j < i && visited[j] in store && IsIgnored(store[visited[j]].value) ==>
         SeedOf(m, added, store[visited[j]].key)
  }

  lemma NonePushed(m: map<Key, Value>, store: Store, visited: seq<EntryRef>)
    ensures PushedFrom(m, store, visited, 0, [])
  {
  }

  lemma OnePushed(m: map<Key, Value>, store: Store, visited: seq<EntryRef>, i: int, added: seq<AllocObject>)
    requires PushedFrom(m, store, visited, i, added) && i < |visited| && visited[i] in store
    requires var x := store[visited[i]]; x.key >= 0 && x.key in m && m[x.key] == x.value
    ensures var x := store[visited[i]];
      if IsIgnored(x.value)
      then PushedFrom(m, store, visited, i + 1, added + [AllocObject(x.key, x.value.bytes, MustBeOnHeap)])
      else PushedFrom(m, store, visited, i + 1, added)
  {
    hide IsIgnored, SeedOf;
    var x := store[visited[i]];
    if IsIgnored(x.value) { SeedMore(m, added, AllocObject(x.key, x.value.bytes, MustBeOnHeap)); }
  }

  lemma AllPushed(m: map<Key, Value>, store: Store, at: map<Key, EntryRef>, visited: seq<EntryRef>,
                  added: seq<AllocObject>)
    requires PushedFrom(m, store, visited, |visited|, added) && m.Keys == at.Keys
    requires forall k :: k in at ==>
      at[k] in visited && at[k] in store && store[at[k]].key == k && store[at[k]].value == m[k]
    ensures NonNegativeRoots(added) && IgnoredRoots(m, added)
  {
    hide IsIgnored, SeedOf;
    forall k {:trigger k in m} | k in m && IsIgnored(m[k]) ensures SeedOf(m, added, k) {
      var j :| 0 <= j < |visited| && visited[j] == at[k];
    }
  }

  lemma SeedMore(m: map<Key, Value>, roots: seq<AllocObject>, r: AllocObject)
    ensures forall k :: SeedOf(m, roots, k) ==> SeedOf(m, roots + [r], k)
    ensures IsSeed(m, r) ==> SeedOf(m, roots + [r], r.ptr)
  {
    var all := roots + [r];
    assert all[|roots|] == r;
    forall k | SeedOf(m, roots, k) ensures SeedOf(m, all, k) {
      var i :| 0 <= i < |roots| && IsSeed(m, roots[i]) && roots[i].ptr == k;
      assert all[i] == roots[i];
    }
  }

  lemma SnapshotAfterMark(m: map<Key, Value>, t: set<Key>, base: map<Key, Value>)
    requires LiveSet(m) <= t && LiveSet(Marked(m, t)) == t
    ensures Marked(m, t).Keys == m.Keys
    ensures LeakMap(Marked(m, t), base, m.Keys).Keys == m.Keys - t - base.Keys
    ensures LiveSet(Cleared(Marked(m, t), m.Keys)) == {}
  {
    var m' := Marked(m, t);
    forall k | k in m ensures !IsLive(Cleared(m', m.Keys)[k]) && (IsLive(m'[k]) <==> k in t) {
      TagsIndependent(m'[k], false);
      assert k in LiveSet(m') <==> IsLive(m'[k]);
    }
  }

  lemma {:induction false} CountIsSize(m: map<Key, Value>)
    ensures TallyOf(m, None).count == |m|
    decreases |m|
  {
    if |m| != 0 {
      var k := Pick(m.Keys);
      CountIsSize(m - {k});
      assert |m - {k}| == |m| - 1 by { assert (m - {k}).Keys == m.Keys - {k}; }
    }
  }

  lemma SameSizesTrans(a: Store, b: Store, c: Store)
    requires SameSizes(a, b) && SameSizes(b, c)
    ensures SameSizes(a, c)
  {
  }

  lemma MarkedBytes(m: map<Key, Value>, marked: set<Key>, k: Key)
    ensures Marked(m, marked).Keys == m.Keys && (k in m ==> Marked(m, marked)[k].bytes == m[k].bytes)
  {
  }
}
