/** The central free list of one size class, on top of the page heap and the metadata
    page table, run by one thread at a time. */
module CentralFreeLists {
  import opened Common
  import opened SpanTable
  import opened PageHeaps
  import opened ObjectChains
  import opened ObjectMetadata
  import opened ObjectPools
  import opened FreeListStates
  import opened ShiftArith
  import M = MetaTable

  /** Follow a chain for up to `N` objects: `prev` is the last one, `curr` what follows. */
  method WalkChain(links: Links, head: Addr, N: int, ghost s: seq<Addr>) returns (n: int, prev: Addr, curr: Addr)
    requires ChainOf(links, head, s) && s != [] && N >= 1
    ensures n == if N < |s| then N else |s|
    ensures prev == s[n - 1] && curr == Head(s[n..]) && (curr == NULL <==> n == |s|)
  {
    prev := head;
    assert LinkOk(links, s, 0);
    curr := Next(links, prev);
    n := 1;
    while n < N && curr != NULL
      invariant 1 <= n <= |s| && n <= N && prev == s[n - 1] && curr == Head(s[n..])
    {
      assert n < |s|;
      prev := curr;
      assert LinkOk(links, s, n);
      curr := Next(links, curr);
      n := n + 1;
    }
    if n < |s| { assert LinkOk(links, s, n); }
  }

  class CentralFreeList {
    const heap: PageHeap
    const meta: M.MetaStore
    const k: Class
    const maxCacheSize: int
    var cacheSize: int
    var f: Fields
    ghost var c: Contents

    ghost predicate Valid()
      reads this, heap, meta
    {
      && ClassOk(k) && 0 < meta.bytes <= 16 && heap.Valid()
      && Inv(k, heap.spans, meta.table, meta.bytes, f, c)
      && |f.slots| <= cacheSize <= maxCacheSize
    }

    constructor (heap: PageHeap, meta: M.MetaStore, k: Class, cacheSize: int, maxCacheSize: int)
      requires heap.Valid() && ClassOk(k) && 0 < meta.bytes <= 16 && 0 <= cacheSize <= maxCacheSize
      ensures Valid() && c.free == map[] && this.heap == heap && this.meta == meta && this.k == k
    {
      this.heap, this.meta, this.k, this.maxCacheSize, this.cacheSize := heap, meta, k, maxCacheSize, cacheSize;
      f := Fields([], [], 0, 0, map[], map[], map[], []);
      c := Contents(map[], map[], [], map[]);
    }

    /** Take up to `N` objects from the first span that has any. */
    method FetchFromOneSpans(N: int) returns (n: int, start: Addr, end: Addr, ghost got: seq<Addr>)
      requires Valid() && N >= 1
      modifies this`f, this`c
      ensures Valid() && f.slots == old(f.slots) && c.stored == old(c.stored)
      ensures n == |got| <= N && (n == 0 <==> old(f.nonempty) == []) && (n == 0 ==> unchanged(this))
      // The first n objects of the first span, as many as it has or as are asked for.
      ensures n > 0 ==> var r := old(f.nonempty[0]);
        && r in old(c.free) && r in old(c.lent) && r in old(f.refcount)
        && n == (if N < |old(c.free)[r]| then N else |old(c.free)[r]|) && got == old(c.free)[r][..n]
        && c == TakeContents(old(c), r, n) && f == TakeFields(old(f), r, n, old(c.free)[r])
      ensures Held(f.links, c.lent, c.stored, start, got) && end == Last(got) && NoneLent(old(c.lent), got)
      ensures ClientsUndisturbed(old(f.links), f.links, old(c.lent), c.lent, {})
    {
      hide PageHeap.Valid, Geometry, Inv, Held, NoneLent, IsLent, ChainOf, TakenLent, TakenFree, Members;
      hide ClientsUndisturbed, Pool;
      got, start, end, n := [], NULL, NULL, 0;
      if f.nonempty == [] {
        NothingHeld(f.links, c.lent, c.stored);
        return;
      }
      FirstSpan(k, heap.spans, meta.table, meta.bytes, f, c);
      HeapGeometry(heap);
      var r := f.nonempty[0];
      ghost var s := c.free[r];
      var curr;
      n, end, curr := WalkChain(f.links, f.heads[r], N, s);
      TakeInv(k, heap.spans, heap.pagemap, meta.table, meta.bytes, f, c, n);
      TakeClients(k, heap.spans, heap.pagemap, f.links, c.free, c.lent, r, n);
      got, start := s[..n], f.heads[r];
      var g := f;
      if curr == NULL {
        g := g.(nonempty := g.nonempty[1..], empty := [r] + g.empty);
      }
      f := g.(heads := g.heads[r := curr], links := g.links[end := NULL],
              refcount := g.refcount[r := g.refcount[r] + n], counter := g.counter - n);
      c := TakeContents(c, r, n);
    }

    /** The page-heap half of Populate: a data span and its metadata span, or neither. */
    method AcquireSpan() returns (res: Option<SpanRef>, ghost q: SpanRef)
      requires Valid()
      modifies heap, meta`table
      ensures Valid()
      ensures res.Some? ==>
        && NewPair(k, heap.spans, meta.table, meta.bytes, c, res.value, q)
        && InUseRefs(heap.spans) == old(InUseRefs(heap.spans)) + {res.value, q}
        && res.value !in old(InUseRefs(heap.spans)) && q !in old(InUseRefs(heap.spans))
      ensures res.None? ==> InUseRefs(heap.spans) == old(InUseRefs(heap.spans)) && meta.table == old(meta.table)
    {
      hide PageHeap.Valid, Geometry, Inv, Grants, SameInUse, Coarsens, InUseRefs, BestFit, CarvedFrom, NoFit, Owns,
        SamePages, MetaShift, MetaPages, Relocated, M.TableSet, NewPair;
      q := 0;
      ghost var m := heap.spans;
      ghost var growth;
      res, growth := heap.New(k.pages);
      ghost var m1 := heap.spans;
      if res.None? {
        AcquiredNothing(k, m, m1, meta.table, meta.bytes, f, c);
        return;
      }
      var r := res.value;
      GrantedSpan(m, m1, r, k.pages);
      heap.RegisterSizeClass(r, k.id);
      ghost var m2 := heap.spans;
      var a := MetaShift(k.size);
      ShiftBound(k.size);
      MetaPagesPositive(k.pages, meta.bytes, a);
      var other, _ := heap.New(MetaPages(k.pages, meta.bytes, a));
      ghost var m3 := heap.spans;
      if other.Some? {
        q := other.value;
        GrantedKept(m2, m3, q, MetaPages(k.pages, meta.bytes, a), r);
        GrantedSpan(m2, m3, q, MetaPages(k.pages, meta.bytes, a));
        HeapGeometry(heap);
        SpanBase(m3, heap.pagemap, r);
        var ok := meta.SetEntries(Base(heap.spans[r]), k.pages * PAGE_SIZE, Base(heap.spans[other.value]), a);
        Acquired(k, m, m1, m2, m3, heap.pagemap, old(meta.table), meta.table, meta.bytes, f, c, r, q);
      } else {
        SameKept(m2, m3, r);
        heap.Delete(r);
        AcquireFailed(k, m, m1, m2, m3, heap.spans, meta.table, meta.bytes, f, c, r);
        res := None;
      }
    }

    /** Carve a new span into objects and put it on `nonempty`; on failure nothing changes. */
    method Populate() returns (ghost grown: set<SpanRef>)
      requires Valid()
      modifies this`f, this`c, heap, meta`table
      ensures Valid() && f.slots == old(f.slots) && c.stored == old(c.stored)
      ensures ClientsUndisturbed(old(f.links), f.links, old(c.lent), c.lent, {})
      ensures InUseRefs(heap.spans) == old(InUseRefs(heap.spans)) + grown && grown !! old(InUseRefs(heap.spans))
      ensures grown == {} ==> f == old(f) && c == old(c) && meta.table == old(meta.table)
      ensures grown != {} ==>
        && f.nonempty != [] && f.nonempty[0] in c.metaOf && grown == {f.nonempty[0], c.metaOf[f.nonempty[0]]}
        && f.nonempty[1..] == old(f.nonempty) && f.counter == old(f.counter) + Capacity(k)
    {
      hide PageHeap.Valid, Geometry, Inv, InUseRefs, NewPair, ClientsUndisturbed, ChainOf, AgreeOutside, Pool;
      var res, q := AcquireSpan();
      grown := {};
      if res.None? {
        NothingHeld(f.links, c.lent, c.stored);
        return;
      }
      var r := res.value;
      HeapGeometry(heap);
      NewPairFacts(k, heap.spans, heap.pagemap, meta.table, meta.bytes, f, c, r, q);
      ghost var objs := Objects(k, heap.spans[r]);
      var links, head, num := CarveObjects(f.links, Base(heap.spans[r]), k.pages * PAGE_SIZE, k.size);
      AddInv(k, heap.spans, heap.pagemap, meta.table, meta.bytes, f, c, r, q, links, head);
      AddClients(k, heap.spans, heap.pagemap, f.links, links, c.free, c.lent, r);
      f := f.(links := links, heads := f.heads[r := head], refcount := f.refcount[r := 0], nonempty := [r] + f.nonempty,
              numSpans := f.numSpans + 1, counter := f.counter + num);
      c := AddContents(c, r, objs, q);
      grown := {r, q};
    }

    method FetchFromOneSpansSafe(N: int) returns (n: int, start: Addr, end: Addr, ghost got: seq<Addr>)
      requires Valid() && N >= 1
      modifies this`f, this`c, heap, meta`table
      ensures Valid() && f.slots == old(f.slots) && c.stored == old(c.stored)
      ensures n == |got| <= N && (n == 0 ==> f.nonempty == []) && (old(f.nonempty) != [] ==> n > 0)
      ensures Held(f.links, c.lent, c.stored, start, got) && end == Last(got) && NoneLent(old(c.lent), got)
      ensures ClientsUndisturbed(old(f.links), f.links, old(c.lent), c.lent, {})
      ensures old(InUseRefs(heap.spans)) <= InUseRefs(heap.spans)
    {
      hide PageHeap.Valid, Geometry, Inv, InUseRefs, ClientsUndisturbed, Held, NoneLent;
      n, start, end, got := FetchFromOneSpans(N);
      if n == 0 {
        ghost var g, b := f, c;
        ghost var grown := Populate();
        ghost var g', b' := f, c;
        n, start, end, got := FetchFromOneSpans(N);
        UndisturbedTrans(g.links, g'.links, f.links, b.lent, b'.lent, c.lent, {});
        NoneLentBefore(g.links, g'.links, b.lent, b'.lent, got);
      }
    }

    /** Hand out a chain of up to `N` objects: a parked one when sizes match, otherwise
        objects of the spans, fewer than `N` only once no span has a free object. */
    method RemoveRange(N: int) returns (result: int, start: Addr, end: Addr, ghost objs: seq<Addr>)
      requires Valid() && N >= 1
      modifies this`f, this`c, heap, meta`table
      ensures Valid() && result == |objs| <= N && (result < N ==> f.nonempty == [])
      ensures Held(f.links, c.lent, c.stored, start, objs) && end == Last(objs)
      ensures ClientsUndisturbed(old(f.links), f.links, old(c.lent), c.lent, {})
      ensures N == k.move && old(f.slots) != [] ==>
        && old(c.stored) != [] && c.stored + [objs] == old(c.stored) && f.links == old(f.links) && c.lent == old(c.lent)
      ensures !(N == k.move && old(f.slots) != []) ==> c.stored == old(c.stored) && NoneLent(old(c.lent), objs)
    {
      hide PageHeap.Valid, Geometry, Inv, InUseRefs, ClientsUndisturbed, Held, NoneLent;
      if N == k.move && f.slots != [] {
        UnparkInv(k, heap.spans, meta.table, meta.bytes, f, c);
        var slot := |f.slots| - 1;
        start, end, result := f.slots[slot].head, f.slots[slot].tail, N;
        objs := c.stored[slot];
        f := f.(slots := f.slots[..slot]);
        c := c.(stored := c.stored[..slot]);
        NothingHeld(f.links, c.lent, c.stored);
        return;
      }
      ghost var l, b := f.links, c.lent;
      result, start, end, objs := FetchFromOneSpansSafe(N);
      if result != 0 {
        while result < N
          invariant Valid() && c.stored == old(c.stored) && 1 <= result == |objs| <= N
          invariant Held(f.links, c.lent, c.stored, start, objs) && end == Last(objs) && NoneLent(b, objs)
          invariant ClientsUndisturbed(l, f.links, b, c.lent, {})
        {
          ghost var l1, b1 := f.links, c.lent;
          HeldLent(l1, b1, c.stored, start, objs);
          var n, head, tail, got := FetchFromOneSpans(N - result);
          if n == 0 { break; }
          UndisturbedTrans(l, l1, f.links, b, b1, c.lent, {});
          NoneLentBefore(l, l1, b, b1, got);
          HeldKept(l1, f.links, b1, c.lent, {}, c.stored, start, objs);
          HeapGeometry(heap);
          PushRange(k, heap.spans, heap.pagemap, meta.table, meta.bytes, f, c, b1, start, objs, head, got);
          WrittenElsewhere(l, f.links, b, c.lent, got, start);
          BothFresh(b, got, objs);
          f := f.(links := f.links[tail := start]);
          start, result, objs := head, result + n, got + objs;
        }
      }
    }

    /** Return one object to its span; a span that has all its objects back goes to the
        page heap together with its metadata span. */
    method ReleaseToSpans(o: Addr, ghost r: SpanRef)
      requires Valid() && r in c.lent && o in c.lent[r] && Unparked(c.stored, o)
      modifies this`f, this`c, heap, meta`table
      ensures Valid() && f.slots == old(f.slots) && c.stored == old(c.stored)
      ensures !IsLent(c.lent, o) && ClientsUndisturbed(old(f.links), f.links, old(c.lent), c.lent, {o})
      ensures LentShrinks(old(c.lent), c.lent)
      ensures InUseRefs(heap.spans) == old(InUseRefs(heap.spans)) - Spent(old(c), r, o)
    {
      hide LentShrinks, PageHeap.Valid, Geometry, Inv, InUseRefs, ClientsUndisturbed, IsLent, Pool, Unparked, GivenLent,
        GivenFree, Capacity;
      HeapGeometry(heap);
      SpanOfLent(k, heap.spans, heap.pagemap, meta.table, meta.bytes, f, c, r, o);
      var span := heap.pagemap[o / PAGE_SIZE];
      var g := f;
      if g.heads[span] == NULL {
        g := g.(empty := Without(g.empty, span), nonempty := [span] + g.nonempty);
      }
      g := g.(counter := g.counter + 1, refcount := g.refcount[span := g.refcount[span] - 1]);
      if g.refcount[span] == 0 {
        DropInv(k, heap.spans, heap.pagemap, meta.table, meta.bytes, f, c, r, o);
        DropClients(k, heap.spans, heap.pagemap, f.links, c.free, c.lent, r, o);
        ghost var f0, c0 := f, c;
        CapacityIs(k);
        f := g.(counter := g.counter - heap.spans[span].length * PAGE_SIZE / k.size,
                nonempty := Without(g.nonempty, span), numSpans := g.numSpans - 1,
                refcount := g.refcount - {span}, heads := g.heads - {span});
        assert f.refcount == f0.refcount - {span};
        c := DropContents(c, r);
        FreeSpan(span, f0, c0);
      } else {
        GiveInv(k, heap.spans, heap.pagemap, meta.table, meta.bytes, f, c, r, o);
        GiveClients(k, heap.spans, heap.pagemap, f.links, c.free, c.lent, r, o, f.heads[r]);
        f := g.(links := g.links[o := g.heads[span]], heads := g.heads[span := o]);
        c := GiveContents(c, r, o);
      }
    }

    /** The page-heap half of releasing a span. */
    method FreeSpan(span: SpanRef, ghost f0: Fields, ghost c0: Contents)
      requires ClassOk(k) && meta.bytes > 0 && heap.Valid()
      requires Inv(k, heap.spans, meta.table, meta.bytes, f0, c0) && span in c0.free
      requires c == DropContents(c0, span) && Inv(k, heap.spans, meta.table, meta.bytes, f, c)
      modifies heap, meta`table
      ensures heap.Valid() && Inv(k, heap.spans, meta.table, meta.bytes, f, c)
      ensures span in c0.metaOf && InUseRefs(heap.spans) == old(InUseRefs(heap.spans)) - {span, c0.metaOf[span]}
    {
      hide PageHeap.Valid, Geometry, Inv, InUseRefs, Coarsens, Relocated, M.TableSet, DropContents, M.EntryAt;
      hide M.EntryMeta;
      HeapGeometry(heap);
      MetaSpanRecovered(k, heap.spans, heap.pagemap, meta.table, meta.bytes, f0, c0, span);
      PairIsOwn(k, heap.spans, meta.table, meta.bytes, f0, c0, span);
      SpanBase(heap.spans, heap.pagemap, span);
      ghost var m, pm, t := heap.spans, heap.pagemap, meta.table;
      var base := Base(heap.spans[span]);
      var entry := M.EntryAt(meta.table, M.PageOf(base));
      var ok := meta.SetEntries(base, heap.spans[span].length * PAGE_SIZE, 0, 0);
      var metaspan := heap.pagemap[M.EntryMeta(entry) / PAGE_SIZE];
      heap.Delete(metaspan);
      ghost var m1 := heap.spans;
      KeptByDelete(m, m1, metaspan, span);
      heap.Delete(span);
      FreedPair(k, m, m1, heap.spans, pm, t, meta.table, meta.bytes, f0, c0, f, span, metaspan);
    }

    method ReleaseListToSpans(start: Addr, ghost objs: seq<Addr>)
      requires Valid() && Held(f.links, c.lent, c.stored, start, objs)
      modifies this`f, this`c, heap, meta`table
      ensures Valid() && f.slots == old(f.slots) && c.stored == old(c.stored)
      ensures NoneLent(c.lent, objs) && ClientsUndisturbed(old(f.links), f.links, old(c.lent), c.lent, Members(objs))
      ensures InUseRefs(heap.spans) <= old(InUseRefs(heap.spans))
    {
      hide PageHeap.Valid, Geometry, Inv, InUseRefs, ClientsUndisturbed, IsLent, Held, ClassOk, LentShrinks;
      var p := start;
      ghost var i := 0;
      NothingReleased(f.links, c.lent, objs);
      assert objs[0..] == objs;
      while p != NULL
        invariant Valid() && f.slots == old(f.slots) && c.stored == old(c.stored) && 0 <= i <= |objs|
        invariant Held(f.links, c.lent, c.stored, p, objs[i..])
        invariant NoneLent(c.lent, objs[..i])
        invariant ClientsUndisturbed(old(f.links), f.links, old(c.lent), c.lent, Members(objs[..i]))
        invariant InUseRefs(heap.spans) <= old(InUseRefs(heap.spans))
        decreases |objs| - i
      {
        HeldHead(f.links, c.lent, c.stored, p, objs[i..]);
        var next := Next(f.links, p);
        ghost var l, b, r := f.links, c.lent, SpanLent(c.lent, p);
        ReleaseToSpans(p, r);
        HeldRest(l, f.links, b, c.lent, c.stored, p, objs[i..]);
        OneMoreReleased(old(f.links), l, f.links, old(c.lent), b, c.lent, objs, i);
        assert objs[i..][1..] == objs[i + 1..];
        p, i := next, i + 1;
      }
      HeldEnd(f.links, c.lent, c.stored, objs[i..]);
      assert objs[..i] == objs;
    }

    /** Room for one more parked chain: in the cache as it is, or after another size class
        gave up a slot, which may fail at will. */
    method MakeCacheSpace() returns (ok: bool)
      requires Valid()
      modifies this`cacheSize
      ensures Valid() && (ok <==> |f.slots| < cacheSize)
      ensures cacheSize == old(cacheSize) || (ok && old(cacheSize) == |f.slots| && cacheSize == old(cacheSize) + 1)
    {
      if |f.slots| < cacheSize { return true; }
      if cacheSize == maxCacheSize { return false; }
      var evicted: bool := *;
      if evicted && cacheSize < maxCacheSize {
        cacheSize := cacheSize + 1;
        return true;
      }
      return false;
    }

    /** Take back a chain of `N` objects: parked whole when it has the batch size and there
        is room, otherwise returned object by object. */
    method InsertRange(start: Addr, end: Addr, N: int, ghost objs: seq<Addr>)
      requires Valid() && Held(f.links, c.lent, c.stored, start, objs) && N == |objs| && end == Last(objs)
      modifies this, heap, meta`table
      ensures Valid() && ClientsUndisturbed(old(f.links), f.links, old(c.lent), c.lent, Members(objs))
      ensures c.stored == old(c.stored) || c.stored == old(c.stored) + [objs]
      ensures c.stored == old(c.stored) ==> NoneLent(c.lent, objs)
      ensures N != k.move || old(|f.slots|) == maxCacheSize ==> c.stored == old(c.stored)
      ensures N == k.move && old(|f.slots| < cacheSize) ==>
        c.stored == old(c.stored) + [objs] && heap.spans == old(heap.spans)
      ensures InUseRefs(heap.spans) <= old(InUseRefs(heap.spans))
    {
      hide PageHeap.Valid, Geometry, Inv, InUseRefs, ClientsUndisturbed, Held, NoneLent, ClassOk;
      if N == k.move {
        var ok := MakeCacheSpace();
        if ok {
          ParkInv(k, heap.spans, meta.table, meta.bytes, f, c, start, objs);
          f := f.(slots := f.slots + [Slot(start, end)]);
          c := c.(stored := c.stored + [objs]);
          UndisturbedRefl(f.links, c.lent, Members(objs));
          return;
        }
      }
      ReleaseListToSpans(start, objs);
    }
  }

  lemma HeapGeometry(heap: PageHeap)
    requires heap.Valid()
    ensures Geometry(heap.spans, heap.pagemap)
  {
  }

  lemma AcquiredNothing(k: Class, m: Spans, m': Spans, t: M.Table, bytes: int, f: Fields, c: Contents)
    requires k.size > 0 && Inv(k, m, t, bytes, f, c) && SameInUse(m, m')
    ensures Inv(k, m', t, bytes, f, c) && InUseRefs(m') == InUseRefs(m)
  {
    HeldSame(m, m');
    forall s | s in c.free ensures s in c.metaOf { assert MetaPair(k, m, t, bytes, s, c.metaOf[s]); }
    SameEntriesRefl(t, m);
    InvFrame(k, m, m', t, t, bytes, f, c, {});
  }

  lemma GrantedSpan(m: Spans, m': Spans, r: SpanRef, n: int)
    requires Grants(m, m', r, n)
    ensures r in m' && m'[r].location == InUse && m'[r].length == n
  {
  }

  lemma GrantedKept(m: Spans, m': Spans, q: SpanRef, n: int, r: SpanRef)
    requires Grants(m, m', q, n) && r in m && m[r].location == InUse
    ensures r in m' && m'[r] == m[r]
  {
  }

  lemma SameKept(m: Spans, m': Spans, r: SpanRef)
    requires SameInUse(m, m') && r in m && m[r].location == InUse
    ensures r in m' && m'[r] == m[r]
  {
  }

  lemma SpanBase(m: Spans, pm: PageMap, r: SpanRef)
    requires Geometry(m, pm) && r in m
    ensures Base(m[r]) > 0
  {
  }

  /** Split `bytes` bytes from `base` on into linked objects of `size` bytes. */
  method CarveObjects(before: Links, base: Addr, bytes: int, size: int) returns (links: Links, head: Addr, num: int)
    requires base > 0 && size > 0 && bytes >= 0
    ensures num == bytes / size >= 0
    ensures ChainOf(links, head, Carved(base, size, num)) && AgreeOutside(before, links, Carved(base, size, num))
  {
    hide Carved, OpenChain;
    links, head, num := before, NULL, 0;
    var tail, ptr, limit := NULL, base, base + bytes;
    PiecesNone(before, base, size);
    while ptr + size <= limit
      invariant num >= 0 && ptr == base + num * size <= limit
      invariant OpenChain(before, links, head, tail, Carved(base, size, num))
      decreases limit - ptr
    {
      OneMorePiece(before, links, head, tail, base, size, num);
      if num == 0 {
        head := ptr;
      } else {
        links := links[tail := ptr];
      }
      tail := ptr;
      Distribute(num, 1, size);
      ptr := ptr + size;
      num := num + 1;
    }
    Distribute(num, 1, size);
    DivIs(bytes, size, num);
    ClosedChain(before, links, head, tail, base, size, num);
    if num != 0 {
      links := links[tail := NULL];
    }
  }

  lemma UndisturbedRefl(links: Links, lent: Lent, touched: set<Addr>)
    ensures ClientsUndisturbed(links, links, lent, lent, touched)
  {
  }

  /** What a client does: ask for objects, or give back the `which`-th chain it has. */
  datatype Op = Remove(n: int) | Insert(which: nat)

  /** Any client script, from any valid list: the invariant survives every step, and the
      chains in clients' hands are always intact, lent, unparked and disjoint. */
  method Run(list: CentralFreeList, ops: seq<Op>) returns (hands: seq<Slot>, ghost objs: seq<seq<Addr>>)
    requires list.Valid()
    modifies list, list.heap, list.meta`table
    ensures list.Valid() && Hands(list.f.links, list.c.lent, list.c.stored, hands, objs)
  {
    hide PageHeap.Valid, CentralFreeList.Valid, Geometry, Inv, InUseRefs, ClientsUndisturbed, Held, NoneLent, ClassOk,
      Members, Hands;
    hands, objs := [], [];
    NoHands(list.f.links, list.c.lent, list.c.stored);
    var counts: seq<int> := [];
    for i := 0 to |ops|
      invariant list.Valid() && Hands(list.f.links, list.c.lent, list.c.stored, hands, objs)
      invariant |hands| == |objs| == |counts| && forall j :: 0 <= j < |counts| ==> counts[j] == |objs[j]|
    {
      ghost var l, n, stored := list.f.links, list.c.lent, list.c.stored;
      match ops[i]
      case Remove(count) =>
        if count >= 1 {
          var result, start, end, got := list.RemoveRange(count);
          HandsMore(l, list.f.links, n, list.c.lent, stored, list.c.stored, hands, objs, Slot(start, end), got);
          hands, objs, counts := hands + [Slot(start, end)], objs + [got], counts + [result];
        }
      case Insert(which) =>
        if which < |hands| {
          HandFacts(l, n, stored, hands, objs, which);
          list.InsertRange(hands[which].head, hands[which].tail, counts[which], objs[which]);
          HandsLess(l, list.f.links, n, list.c.lent, stored, list.c.stored, hands, objs, which);
          hands, objs := hands[..which] + hands[which + 1..], objs[..which] + objs[which + 1..];
          counts := counts[..which] + counts[which + 1..];
        }
    }
  }

  lemma NoHands(links: Links, lent: Lent, stored: seq<seq<Addr>>)
    ensures Hands(links, lent, stored, [], [])
  {
  }

  lemma HandFacts(links: Links, lent: Lent, stored: seq<seq<Addr>>, hands: seq<Slot>, objs: seq<seq<Addr>>, i: int)
    requires Hands(links, lent, stored, hands, objs) && 0 <= i < |hands|
    ensures |objs| == |hands| && Held(links, lent, stored, hands[i].head, objs[i]) && hands[i].tail == Last(objs[i])
  {
    assert InHand(links, lent, stored, hands[i], objs[i]);
  }
}
