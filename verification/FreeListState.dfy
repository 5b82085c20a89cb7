/** What a central free list keeps, the invariant tying its fields to the objects they
    stand for, and what each of its operations does to both. */
module FreeListStates {
  import opened Common
  import opened SpanTable
  import opened PageHeaps
  import opened ObjectChains
  import opened ObjectMetadata
  import opened ObjectPools
  import opened ShiftArith
  import M = MetaTable

  /** Data span `r` is registered with metadata span `q`. */
  ghost predicate MetaPair(k: Class, m: Spans, t: M.Table, bytes: int, r: SpanRef, q: SpanRef)
    requires k.size > 0
  {
    && r in m && q in m && m[q].location == InUse && m[q].length == MetaPages(k.pages, bytes, MetaShift(k.size))
    && MetaRegistered(t, Base(m[r]), k.pages, Base(m[q]), k.size, bytes)
  }

  /** Every data span has a metadata span of its own. */
  ghost predicate MetaOk(k: Class, m: Spans, t: M.Table, bytes: int, spans: set<SpanRef>, metaOf: map<SpanRef, SpanRef>)
    requires k.size > 0
  {
    && metaOf.Keys == spans
    && (forall r {:trigger MetaPair(k, m, t, bytes, r, metaOf[r])} :: r in spans ==>
         MetaPair(k, m, t, bytes, r, metaOf[r]) && metaOf[r] !in spans)
    && (forall r, s :: r in spans && s in spans && metaOf[r] == metaOf[s] ==> r == s)
  }

  ghost predicate SameEntries(t: M.Table, t': M.Table, s: Span) {
    forall p :: 2 * s.start <= p < 2 * s.End() ==> M.EntryAt(t', p) == M.EntryAt(t, p)
  }

  lemma MappedFrame(k: Class, t: M.Table, t': M.Table, s: Span, metaBase: int, bytes: int)
    requires k.size > 0 && s.length == k.pages && MetaRegistered(t, Base(s), k.pages, metaBase, k.size, bytes)
    requires SameEntries(t, t', s)
    ensures MetaRegistered(t', Base(s), k.pages, metaBase, k.size, bytes)
  {
    hide M.PageEntry, MetaShift;
    var a, n := MetaShift(k.size), k.pages * PAGE_SIZE;
    forall i | 0 <= i < n / M.PAGE
      ensures M.EntryAt(t', M.PageOf(Base(s)) + i) == M.PageEntry(metaBase, i, a, bytes)
    {
      assert M.PageOf(Base(s)) == 2 * s.start && n / M.PAGE == 2 * k.pages;
      assert M.EntryAt(t, M.PageOf(Base(s)) + i) == M.PageEntry(metaBase, i, a, bytes);
    }
  }

  lemma MetaFrame(k: Class, m: Spans, m': Spans, t: M.Table, t': M.Table, bytes: int, spans: set<SpanRef>,
                  metaOf: map<SpanRef, SpanRef>)
    requires k.size > 0 && MetaOk(k, m, t, bytes, spans, metaOf)
    requires forall r :: r in spans ==>
      r in m && r in m' && m'[r] == m[r] && m[r].length == k.pages && SameEntries(t, t', m[r])
    requires forall r :: r in spans ==> metaOf[r] in m && metaOf[r] in m' && m'[metaOf[r]] == m[metaOf[r]]
    ensures MetaOk(k, m', t', bytes, spans, metaOf)
  {
    forall r | r in spans ensures MetaPair(k, m', t', bytes, r, metaOf[r]) && metaOf[r] !in spans {
      assert MetaPair(k, m, t, bytes, r, metaOf[r]);
      MappedFrame(k, t, t', m[r], Base(m[metaOf[r]]), bytes);
    }
  }

  /** set_metapagetable_entries on one span leaves the entries of disjoint spans alone. */
  lemma SetElsewhere(t: M.Table, t': M.Table, s: Span, x: Span, metaptr: int, a: nat, bytes: int)
    requires M.TableSet(t, t', M.PageOf(Base(x)), x.length * PAGE_SIZE / M.PAGE, metaptr, a, bytes)
    requires Apart(s, x) && s.start >= 0 && x.start >= 0
    ensures SameEntries(t, t', s)
  {
    hide M.PageEntry;
    assert M.PageOf(Base(x)) == 2 * x.start && x.length * PAGE_SIZE / M.PAGE == 2 * x.length;
  }

  lemma MetaPagesPositive(pages: int, bytes: int, a: nat)
    requires pages > 0 && bytes > 0
    ensures MetaPages(pages, bytes, a) >= 1
  {
    MulMono(1, pages, bytes);
    DivMono(Pow2(a), pages * bytes + (Pow2(a) - 1), Pow2(a));
    DivIs(Pow2(a), Pow2(a), 1);
  }

  /** Registering a fresh data span with a fresh metadata span. */
  lemma SetRegisters(k: Class, m: Spans, pm: PageMap, t: M.Table, t': M.Table, bytes: int, r: SpanRef, q: SpanRef)
    requires ClassOk(k) && Geometry(m, pm) && r in m && q in m && m[r].length == k.pages && 0 < bytes <= 16
    requires M.TableSet(t, t', M.PageOf(Base(m[r])), k.pages * PAGE_SIZE / M.PAGE, Base(m[q]), MetaShift(k.size), bytes)
    ensures MetaRegistered(t', Base(m[r]), k.pages, Base(m[q]), k.size, bytes)
  {
    hide MetaShift, M.TableSet;
    ShiftBound(k.size);
    MulMono(bytes, 16, k.pages * PAGE_SIZE);
    M.SetIsMapped(t, t', Base(m[r]), k.pages * PAGE_SIZE, Base(m[q]), MetaShift(k.size), bytes);
  }

  /** Words of lent objects belong to the clients: only those in `touched` changed. */
  ghost predicate ClientsUndisturbed(links: Links, links': Links, lent: Lent, lent': Lent, touched: set<Addr>) {
    forall o :: IsLent(lent, o) && o !in touched ==> IsLent(lent', o) && Next(links', o) == Next(links, o)
  }

  ghost predicate LentShrinks(lent: Lent, lent': Lent) { forall o :: IsLent(lent', o) ==> IsLent(lent, o) }

  lemma HeldKept(links: Links, links': Links, lent: Lent, lent': Lent, touched: set<Addr>,
                 stored: seq<seq<Addr>>, head: Addr, objs: seq<Addr>)
    requires ClientsUndisturbed(links, links', lent, lent', touched) && Held(links, lent, stored, head, objs)
    requires forall i :: 0 <= i < |objs| ==> objs[i] !in touched
    ensures Held(links', lent', stored, head, objs)
  {
    forall i | 0 <= i < |objs| ensures IsLent(lent', objs[i]) && Next(links', objs[i]) == Next(links, objs[i]) {
      assert IsLent(lent, objs[i]);
    }
    ChainSame(links, links', head, objs);
  }

  lemma UndisturbedTrans(l: Links, l': Links, l'': Links, n: Lent, n': Lent, n'': Lent, touched: set<Addr>)
    requires ClientsUndisturbed(l, l', n, n', touched) && ClientsUndisturbed(l', l'', n', n'', touched)
    ensures ClientsUndisturbed(l, l'', n, n'', touched)
  {
  }

  // ------------------------------------------------------------------- state

  function Last(s: seq<Addr>): Addr { if s == [] then NULL else s[|s| - 1] }

  ghost predicate NoneLent(lent: Lent, objs: seq<Addr>) { forall i :: 0 <= i < |objs| ==> !IsLent(lent, objs[i]) }

  /** The fields of the list, of its span records (`objects` and `refcount`) and the first
      words of objects, which link free chains. `slots` is tc_slots_[..used_slots_]. */
  datatype Fields = Fields(
    nonempty: seq<SpanRef>, empty: seq<SpanRef>, numSpans: int, counter: int,
    heads: map<SpanRef, Addr>, refcount: map<SpanRef, int>, links: Links, slots: seq<Slot>)

  /** What the fields stand for: the free objects of each span in chain order, the lent
      objects of each span, the parked chains, and the metadata span of each span. */
  datatype Contents = Contents(free: Chains, lent: Lent, stored: seq<seq<Addr>>, metaOf: map<SpanRef, SpanRef>)

  ghost predicate Inv(k: Class, m: Spans, t: M.Table, bytes: int, f: Fields, c: Contents)
    requires k.size > 0
  {
    && Pool(k, m, c.free, c.lent) && ChainsOk(f.links, f.heads, c.free) && CountsOk(f.refcount, c.lent)
    && StoredOk(f.links, c.lent, k.move, f.slots, c.stored)
    && ListsOk(f.nonempty, f.empty, c.free) && f.counter == Total(c.free) && f.numSpans == |c.free|
    && MetaOk(k, m, t, bytes, c.free.Keys, c.metaOf)
  }

  /** Conservation, read off the invariant: refcount and chain length of a span add up
      to its capacity, the counter is the length of all chains, and the chain read from
      memory is duplicate-free. */
  lemma ObjectsConserved(k: Class, m: Spans, t: M.Table, bytes: int, f: Fields, c: Contents, r: SpanRef)
    requires ClassOk(k) && Inv(k, m, t, bytes, f, c) && r in c.free
    ensures r in f.refcount && f.refcount[r] + |c.free[r]| == k.pages * PAGE_SIZE / k.size
    ensures r in f.heads && ChainOf(f.links, f.heads[r], c.free[r]) && NoRepeats(c.free[r])
    ensures f.counter == Total(c.free)
    ensures r in f.nonempty <==> c.free[r] != []
  {
    assert SpanPool(k, m, c.free, c.lent, r) && SpanChain(f.links, f.heads, c.free, r);
    CarvedDistinct(Base(m[r]), k.size, Capacity(k));
    MembersCount(Objects(k, m[r]));
    MembersCount(c.free[r]);
    hide Members;
    assert |Members(c.free[r]) + c.lent[r]| == |Members(c.free[r])| + |c.lent[r]|;
  }

  // ----------------------------------------------------------------- fetching

  function TakeFields(f: Fields, r: SpanRef, n: int, s: seq<Addr>): Fields
    requires r in f.refcount && 1 <= n <= |s| && f.nonempty != []
  {
    f.(nonempty := if n == |s| then f.nonempty[1..] else f.nonempty,
       empty := if n == |s| then [r] + f.empty else f.empty,
       heads := f.heads[r := Head(s[n..])],
       links := f.links[s[n - 1] := NULL],
       refcount := f.refcount[r := f.refcount[r] + n],
       counter := f.counter - n)
  }

  function TakeContents(c: Contents, r: SpanRef, n: int): Contents
    requires r in c.free && r in c.lent && 1 <= n <= |c.free[r]|
  {
    c.(free := TakenFree(c.free, r, n), lent := TakenLent(c.free, c.lent, r, n))
  }

  lemma TakeLists(nonempty: seq<SpanRef>, empty: seq<SpanRef>, free: Chains, r: SpanRef, n: int)
    requires ListsOk(nonempty, empty, free) && nonempty != [] && r == nonempty[0] && r in free && 1 <= n <= |free[r]|
    ensures n == |free[r]| ==> ListsOk(nonempty[1..], [r] + empty, TakenFree(free, r, n))
    ensures n < |free[r]| ==> ListsOk(nonempty, empty, TakenFree(free, r, n))
  {
    assert nonempty == [r] + nonempty[1..];
    assert r !in nonempty[1..] && r !in empty;
  }

  /** What fetching needs to know about the first span. */
  lemma FirstSpan(k: Class, m: Spans, t: M.Table, bytes: int, f: Fields, c: Contents)
    requires k.size > 0 && Inv(k, m, t, bytes, f, c) && f.nonempty != []
    ensures Pool(k, m, c.free, c.lent)
    ensures var r := f.nonempty[0];
      && r in c.free && c.free[r] != [] && r in c.lent && r in f.refcount && r in f.heads
      && ChainOf(f.links, f.heads[r], c.free[r])
  {
    var r := f.nonempty[0];
    assert r in f.nonempty;
    assert SpanChain(f.links, f.heads, c.free, r);
  }

  lemma TakeInv(k: Class, m: Spans, pm: PageMap, t: M.Table, bytes: int, f: Fields, c: Contents, n: int)
    requires ClassOk(k) && Geometry(m, pm) && Inv(k, m, t, bytes, f, c) && f.nonempty != []
    requires var r := f.nonempty[0];
      r in c.free && r in c.lent && r in f.refcount && r in f.heads && 1 <= n <= |c.free[r]|
    ensures var r := f.nonempty[0];
      var f', c' := TakeFields(f, r, n, c.free[r]), TakeContents(c, r, n);
      && Inv(k, m, t, bytes, f', c')
      && Held(f'.links, c'.lent, c.stored, f.heads[r], c.free[r][..n])
  {
    hide Pool, ChainsOk, StoredOk, Held, Total, Geometry, Members, MetaOk, ListsOk, Capacity;
    var r := f.nonempty[0];
    PoolTaken(k, m, c.free, c.lent, r, n);
    TakeKeeps(k, m, pm, f.links, f.heads, c.free, c.lent, f.slots, c.stored, r, n);
    TotalDrop(c.free, r);
    TotalPut(c.free, r, c.free[r][n..]);
    TakeLists(f.nonempty, f.empty, c.free, r, n);
    assert TakenFree(c.free, r, n).Keys == c.free.Keys;
  }

  lemma TakeClients(k: Class, m: Spans, pm: PageMap, links: Links, free: Chains, lent: Lent, r: SpanRef, n: int)
    requires ClassOk(k) && Geometry(m, pm) && Pool(k, m, free, lent) && r in free && 1 <= n <= |free[r]|
    ensures r in lent && NoneLent(lent, free[r][..n])
    ensures ClientsUndisturbed(links, links[free[r][n - 1] := NULL], lent, TakenLent(free, lent, r, n), {})
  {
    var links', lent' := links[free[r][n - 1] := NULL], TakenLent(free, lent, r, n);
    forall i | 0 <= i < n ensures !IsLent(lent, free[r][..n][i]) {
      FreeIsNotLent(k, m, pm, free, lent, r, free[r][i]);
    }
    forall o | IsLent(lent, o) ensures IsLent(lent', o) && Next(links', o) == Next(links, o) {
      LentGrows(free, lent, r, n, o);
      FreeIsNotLent(k, m, pm, free, lent, r, free[r][n - 1]);
    }
  }

  // ------------------------------------------------------- chains outside the list

  /** A client writes the word of an object it was lent. */
  lemma WriteInv(k: Class, m: Spans, pm: PageMap, t: M.Table, bytes: int, f: Fields, c: Contents, o: Addr, v: Addr)
    requires ClassOk(k) && Geometry(m, pm) && Inv(k, m, t, bytes, f, c) && IsLent(c.lent, o)
    requires Unparked(c.stored, o)
    ensures Inv(k, m, t, bytes, f.(links := f.links[o := v]), c)
  {
    hide Geometry, MetaOk, Members, ListsOk, Pool, Total, CountsOk, ChainOf, IsLent;
    LentIsNotFree(k, m, pm, c.free, c.lent, o);
    forall r | r in c.free ensures SpanChain(f.links[o := v], f.heads, c.free, r) {
      assert SpanChain(f.links, f.heads, c.free, r);
      ChainFrame(f.links, f.heads[r], c.free[r], o, v);
    }
    forall i | 0 <= i < |c.stored| ensures o !in c.stored[i] && AllLent(c.lent, c.stored[i]) {
      assert SlotOk(f.links, c.lent, k.move, f.slots[i], c.stored[i]);
    }
    StoredWrite(f.links, c.lent, c.lent, k.move, f.slots, c.stored, o, v);
  }

  ghost predicate Unparked(stored: seq<seq<Addr>>, o: Addr) { forall i :: 0 <= i < |stored| ==> o !in stored[i] }

  lemma HeldLent(links: Links, lent: Lent, stored: seq<seq<Addr>>, head: Addr, objs: seq<Addr>)
    requires Held(links, lent, stored, head, objs)
    ensures AllLent(lent, objs)
  {
  }

  lemma HeldMember(links: Links, lent: Lent, stored: seq<seq<Addr>>, head: Addr, objs: seq<Addr>, i: int)
    requires Held(links, lent, stored, head, objs) && 0 <= i < |objs|
    ensures IsLent(lent, objs[i]) && Unparked(stored, objs[i])
  {
  }

  /** SLL_PushRange of one held chain in front of another. */
  lemma JoinHeld(links: Links, lent: Lent, stored: seq<seq<Addr>>, h: Addr, objs: seq<Addr>, h': Addr, got: seq<Addr>)
    requires Held(links, lent, stored, h, objs) && Held(links, lent, stored, h', got) && got != [] && Apart2(objs, got)
    ensures Held(links[Last(got) := h], lent, stored, h', got + objs)
  {
    hide IsLent, ChainOf;
    ChainJoin(links, h, objs, h', got);
    forall i | 0 <= i < |got + objs| ensures IsLent(lent, (got + objs)[i]) {
      if i >= |got| { assert IsLent(lent, objs[i - |got|]); }
    }
  }

  lemma FreshApart(lent: Lent, objs: seq<Addr>, got: seq<Addr>)
    requires AllLent(lent, objs) && NoneLent(lent, got)
    ensures Apart2(objs, got)
  {
  }

  lemma ParkInv(k: Class, m: Spans, t: M.Table, bytes: int, f: Fields, c: Contents, start: Addr, objs: seq<Addr>)
    requires ClassOk(k) && Inv(k, m, t, bytes, f, c) && Held(f.links, c.lent, c.stored, start, objs) && |objs| == k.move
    ensures Inv(k, m, t, bytes, f.(slots := f.slots + [Slot(start, Last(objs))]), c.(stored := c.stored + [objs]))
  {
    hide MetaOk, Members, ListsOk, Pool, Total, CountsOk, ChainOf, IsLent, ChainsOk;
    var slots', stored' := f.slots + [Slot(start, Last(objs))], c.stored + [objs];
    forall i | 0 <= i < |slots'| ensures SlotOk(f.links, c.lent, k.move, slots'[i], stored'[i]) {
      if i < |f.slots| { assert SlotOk(f.links, c.lent, k.move, f.slots[i], c.stored[i]); }
    }
  }

  lemma UnparkInv(k: Class, m: Spans, t: M.Table, bytes: int, f: Fields, c: Contents)
    requires ClassOk(k) && Inv(k, m, t, bytes, f, c) && f.slots != []
    ensures var n := |f.slots| - 1;
      && |c.stored| == n + 1 && Inv(k, m, t, bytes, f.(slots := f.slots[..n]), c.(stored := c.stored[..n]))
      && Held(f.links, c.lent, c.stored[..n], f.slots[n].head, c.stored[n])
      && |c.stored[n]| == k.move && f.slots[n].tail == Last(c.stored[n])
  {
    hide MetaOk, Members, ListsOk, Pool, Total, CountsOk, ChainOf, IsLent, ChainsOk;
    var n := |f.slots| - 1;
    assert SlotOk(f.links, c.lent, k.move, f.slots[n], c.stored[n]);
    forall i | 0 <= i < n ensures SlotOk(f.links, c.lent, k.move, f.slots[..n][i], c.stored[..n][i]) {
      assert SlotOk(f.links, c.lent, k.move, f.slots[i], c.stored[i]);
    }
  }

  // ------------------------------------------------------------- giving back

  /** The state once `r` is among the spans with a free object. */
  function Listed(f: Fields, r: SpanRef): Fields
    requires r in f.heads
  {
    if f.heads[r] == NULL then f.(empty := Without(f.empty, r), nonempty := [r] + f.nonempty) else f
  }

  function GiveFields(f: Fields, r: SpanRef, o: Addr): Fields
    requires r in f.heads && r in f.refcount
  {
    var g := Listed(f, r);
    g.(counter := g.counter + 1, refcount := g.refcount[r := g.refcount[r] - 1],
       links := g.links[o := g.heads[r]], heads := g.heads[r := o])
  }

  function GiveContents(c: Contents, r: SpanRef, o: Addr): Contents
    requires r in c.free && r in c.lent
  {
    c.(free := GivenFree(c.free, r, o), lent := GivenLent(c.lent, r, o))
  }

  lemma GiveLists(nonempty: seq<SpanRef>, empty: seq<SpanRef>, free: Chains, r: SpanRef, o: Addr)
    requires ListsOk(nonempty, empty, free) && r in free
    ensures free[r] == [] ==> ListsOk([r] + nonempty, Without(empty, r), GivenFree(free, r, o))
    ensures free[r] != [] ==> ListsOk(nonempty, empty, GivenFree(free, r, o))
  {
    WithoutProps(empty, r);
  }

  /** The span of a lent object, as the page map gives it. */
  lemma SpanOfLent(k: Class, m: Spans, pm: PageMap, t: M.Table, bytes: int, f: Fields, c: Contents, r: SpanRef, o: Addr)
    requires ClassOk(k) && Geometry(m, pm) && Inv(k, m, t, bytes, f, c) && r in c.lent && o in c.lent[r]
    ensures Pool(k, m, c.free, c.lent) && r in m && m[r].length == k.pages
    ensures PageIs(pm, o / PAGE_SIZE, r) && r in c.free && r in f.heads && r in f.refcount && f.refcount[r] > 0
    ensures f.heads[r] == NULL <==> c.free[r] == []
    ensures f.refcount[r] == 1 <==> c.lent[r] == {o}
  {
    hide Geometry, Members, Objects, MetaOk, StoredOk, ListsOk, ChainOf, NoRepeats, Total;
    LentSpan(k, m, pm, c.free, c.lent, r, o);
    assert SpanPool(k, m, c.free, c.lent, r) && SpanChain(f.links, f.heads, c.free, r);
    ChainEnd(f.links, f.heads[r], c.free[r]);
    LastOne(c.lent[r], o);
  }

  lemma LastOne(s: set<Addr>, o: Addr)
    requires o in s
    ensures |s| > 0 && (|s| == 1 <==> s == {o})
  {
    assert s == {o} + (s - {o});
    assert |s| == 1 + |s - {o}|;
  }

  lemma GiveCounts(refcount: map<SpanRef, int>, lent: Lent, r: SpanRef, o: Addr)
    requires CountsOk(refcount, lent) && r in lent && o in lent[r]
    ensures r in refcount && CountsOk(refcount[r := refcount[r] - 1], GivenLent(lent, r, o))
  {
  }

  lemma GiveTotal(free: Chains, r: SpanRef, o: Addr)
    requires r in free
    ensures Total(GivenFree(free, r, o)) == Total(free) + 1 && |GivenFree(free, r, o)| == |free|
    ensures GivenFree(free, r, o).Keys == free.Keys
  {
    TotalDrop(free, r);
    TotalPut(free, r, [o] + free[r]);
    assert GivenFree(free, r, o).Keys == free.Keys;
  }

  lemma UnparkedAll(stored: seq<seq<Addr>>, o: Addr)
    requires Unparked(stored, o)
    ensures forall i :: 0 <= i < |stored| ==> o !in stored[i]
  {
  }

  lemma GiveInv(k: Class, m: Spans, pm: PageMap, t: M.Table, bytes: int, f: Fields, c: Contents, r: SpanRef, o: Addr)
    requires ClassOk(k) && Geometry(m, pm) && Inv(k, m, t, bytes, f, c) && r in c.lent && o in c.lent[r]
    requires Unparked(c.stored, o) && r in c.free && r in f.heads && r in f.refcount
    ensures Inv(k, m, t, bytes, GiveFields(f, r, o), GiveContents(c, r, o))
  {
    hide Pool, ChainsOk, StoredOk, Total, Geometry, Members, MetaOk, ListsOk, Capacity, CountsOk, Unparked, GivenFree;
    hide GivenLent;
    SpanOfLent(k, m, pm, t, bytes, f, c, r, o);
    assert forall i :: 0 <= i < |c.stored| ==> o !in c.stored[i] by { UnparkedAll(c.stored, o); }
    GiveCounts(f.refcount, c.lent, r, o);
    PoolGiven(k, m, c.free, c.lent, r, o);
    GiveKeeps(k, m, pm, f.links, f.heads, c.free, c.lent, f.slots, c.stored, r, o);
    GiveTotal(c.free, r, o);
    GiveLists(f.nonempty, f.empty, c.free, r, o);
  }

  lemma GiveClients(k: Class, m: Spans, pm: PageMap, links: Links, free: Chains, lent: Lent, r: SpanRef, o: Addr,
                    v: Addr)
    requires ClassOk(k) && Geometry(m, pm) && Pool(k, m, free, lent) && r in lent && o in lent[r]
    ensures ClientsUndisturbed(links, links[o := v], lent, GivenLent(lent, r, o), {o})
    ensures !IsLent(GivenLent(lent, r, o), o) && LentShrinks(lent, GivenLent(lent, r, o))
  {
    var lent' := GivenLent(lent, r, o);
    forall x | IsLent(lent, x) && x != o ensures IsLent(lent', x) {
      var s :| s in lent && x in lent[s];
      assert s in lent' && x in lent'[s];
    }
    if IsLent(lent', o) {
      var s :| s in lent' && o in lent'[s];
      LentUnique(k, m, pm, free, lent, r, s, o);
    }
  }

  // ----------------------------------------------------------- dropping a span

  function DropFields(f: Fields, r: SpanRef, capacity: int): Fields
    requires r in f.heads
  {
    var g := Listed(f, r);
    g.(nonempty := Without(g.nonempty, r), numSpans := g.numSpans - 1, counter := g.counter + 1 - capacity,
       refcount := g.refcount - {r}, heads := g.heads - {r})
  }

  function DropContents(c: Contents, r: SpanRef): Contents {
    c.(free := c.free - {r}, lent := c.lent - {r}, metaOf := c.metaOf - {r})
  }

  lemma DropLists(nonempty: seq<SpanRef>, empty: seq<SpanRef>, free: Chains, r: SpanRef)
    requires ListsOk(nonempty, empty, free) && r in free
    ensures free[r] == [] ==> ListsOk(Without([r] + nonempty, r), Without(empty, r), free - {r})
    ensures free[r] != [] ==> ListsOk(Without(nonempty, r), empty, free - {r})
  {
    WithoutProps(empty, r);
    WithoutProps(nonempty, r);
    assert Without([r] + nonempty, r) == nonempty;
  }

  lemma DropCounts(refcount: map<SpanRef, int>, lent: Lent, r: SpanRef)
    requires CountsOk(refcount, lent)
    ensures CountsOk(refcount - {r}, lent - {r})
  {
  }

  lemma DropInv(k: Class, m: Spans, pm: PageMap, t: M.Table, bytes: int, f: Fields, c: Contents, r: SpanRef, o: Addr)
    requires ClassOk(k) && Geometry(m, pm) && Inv(k, m, t, bytes, f, c) && r in c.lent && c.lent[r] == {o}
    requires Unparked(c.stored, o) && r in f.heads
    ensures Inv(k, m, t, bytes, DropFields(f, r, Capacity(k)), DropContents(c, r))
  {
    hide Pool, ChainsOk, StoredOk, Total, Geometry, Members, MetaOk, ListsOk, Unparked, CountsOk, ChainOf, NoRepeats;
    SpanOfLent(k, m, pm, t, bytes, f, c, r, o);
    ObjectsConserved(k, m, t, bytes, f, c, r);
    assert forall i :: 0 <= i < |c.stored| ==> o !in c.stored[i] by { UnparkedAll(c.stored, o); }
    assert CountsOk(f.refcount - {r}, c.lent - {r}) by { DropCounts(f.refcount, c.lent, r); }
    DropKeeps(k, m, pm, f.links, f.heads, c.free, c.lent, f.slots, c.stored, r, o);
    TotalDrop(c.free, r);
    DropLists(f.nonempty, f.empty, c.free, r);
    MetaDropped(k, m, t, bytes, c.free.Keys, c.metaOf, r);
    assert (c.free - {r}).Keys == c.free.Keys - {r};
    assert c.free.Keys == {r} + (c.free.Keys - {r});
  }

  lemma MetaDropped(k: Class, m: Spans, t: M.Table, bytes: int, spans: set<SpanRef>, metaOf: map<SpanRef, SpanRef>,
                    r: SpanRef)
    requires k.size > 0 && MetaOk(k, m, t, bytes, spans, metaOf)
    ensures MetaOk(k, m, t, bytes, spans - {r}, metaOf - {r})
  {
    hide MetaPair;
    forall s | s in spans - {r} ensures MetaPair(k, m, t, bytes, s, (metaOf - {r})[s]) {
      assert MetaPair(k, m, t, bytes, s, metaOf[s]);
    }
  }

  lemma DropClients(k: Class, m: Spans, pm: PageMap, links: Links, free: Chains, lent: Lent, r: SpanRef, o: Addr)
    requires ClassOk(k) && Geometry(m, pm) && Pool(k, m, free, lent) && r in lent && lent[r] == {o}
    ensures ClientsUndisturbed(links, links, lent, lent - {r}, {o})
    ensures !IsLent(lent - {r}, o) && LentShrinks(lent, lent - {r})
  {
    forall x | IsLent(lent, x) && x != o ensures IsLent(lent - {r}, x) {
      var s :| s in lent && x in lent[s];
      assert s in lent - {r};
    }
    if IsLent(lent - {r}, o) {
      var s :| s in lent - {r} && o in (lent - {r})[s];
      LentUnique(k, m, pm, free, lent, r, s, o);
    }
  }

  /** The metadata page table leads from a span to its metadata span. */
  lemma MetaSpanRecovered(k: Class, m: Spans, pm: PageMap, t: M.Table, bytes: int, f: Fields, c: Contents, r: SpanRef)
    requires ClassOk(k) && Geometry(m, pm) && Inv(k, m, t, bytes, f, c) && r in c.free
    ensures r in m && r in c.metaOf && c.metaOf[r] != r && c.metaOf[r] in m
    ensures m[r].location == InUse && m[c.metaOf[r]].location == InUse
    ensures PageIs(pm, M.EntryMeta(M.EntryAt(t, M.PageOf(Base(m[r])))) / PAGE_SIZE, c.metaOf[r])
  {
    hide Geometry, MetaRegistered, M.PageOf, M.EntryMeta, M.EntryAt, Members;
    var q := c.metaOf[r];
    assert MetaPair(k, m, t, bytes, r, q) && SpanPool(k, m, c.free, c.lent, r);
    RegisteredEntry(t, Base(m[r]), k.pages, Base(m[q]), k.size, bytes);
    StartTag(m, pm, q);
  }

  lemma StartTag(m: Spans, pm: PageMap, q: SpanRef)
    requires Geometry(m, pm) && q in m
    ensures PageIs(pm, Base(m[q]) / PAGE_SIZE, q)
  {
    assert TagsAt(m, pm, q);
  }

  lemma RegisteredEntry(t: M.Table, base: int, pages: int, metaBase: int, size: nat, bytes: int)
    requires MetaRegistered(t, base, pages, metaBase, size, bytes)
    ensures M.EntryMeta(M.EntryAt(t, M.PageOf(base))) == metaBase
  {
    hide M.PageEntry, M.EntryAt, M.EntryMeta;
    var a := MetaShift(size);
    ShiftBound(size);
    assert M.EntryAt(t, M.PageOf(base) + 0) == M.PageEntry(metaBase, 0, a, bytes);
    assert metaBase < 0x100_0000_0000_0000 by { MulMono(0, pages * PAGE_SIZE, bytes); }
    FirstEntry(metaBase, a, bytes);
  }

  lemma FirstEntry(base: int, a: nat, bytes: int)
    requires 0 < base < 0x100_0000_0000_0000 && a < 64
    ensures M.EntryMeta(M.PageEntry(base, 0, a, bytes)) == base
  {
    M.EntryParts(base, a);
    DivIs(0, Pow2(a), 0);
  }

  // ------------------------------------------------------- metadata of objects

  /** The slot of `p` lies inside span `q` and inside the metadata of object `o`. */
  ghost predicate OwnSlot(k: Class, t: M.Table, bytes: int, s: Span, q: Span, o: Addr, p: int)
    requires k.size > 0
  {
    var x := M.MetaPtr(t, p, bytes);
    && Base(q) <= x && x + bytes <= Base(q) + q.length * PAGE_SIZE
    && MetaStart(Base(s), Base(q), k.size, bytes, o) <= x
    && x + bytes <= MetaStart(Base(s), Base(q), k.size, bytes, o + k.size)
  }

  lemma PairOwnsSlots(k: Class, m: Spans, t: M.Table, bytes: int, r: SpanRef, q: SpanRef, o: Addr, p: int)
    requires ClassOk(k) && r in m && MetaPair(k, m, t, bytes, r, q) && o in Objects(k, m[r]) && o <= p < o + k.size
    ensures q in m && OwnSlot(k, t, bytes, m[r], m[q], o, p)
  {
    hide MetaStart, M.MetaPtr, MetaPages, MetaRegistered, MetaShift, Carved;
    ObjectOwnsMetadata(t, Base(m[r]), k.pages, Base(m[q]), k.size, bytes, o, p);
  }

  lemma SlotsApart(k: Class, t: M.Table, bytes: int, s: Span, q: Span, o: Addr, p: int,
                   s': Span, q': Span, o': Addr, p': int)
    requires ClassOk(k) && bytes > 0 && OwnSlot(k, t, bytes, s, q, o, p) && OwnSlot(k, t, bytes, s', q', o', p')
    requires Apart(q, q') || (s == s' && q == q' && o < o' && o in Objects(k, s) && o' in Objects(k, s))
    ensures var x, x' := M.MetaPtr(t, p, bytes), M.MetaPtr(t, p', bytes); x + bytes <= x' || x' + bytes <= x
  {
    hide MetaStart, M.MetaPtr, Carved;
    if !Apart(q, q') { ObjectsApart(Base(s), Base(q), k.size, bytes, Capacity(k), o, o'); }
  }

  /** The metadata of every object of a list lies inside the metadata span of the object's
      span, and different objects, of one span or of two, have disjoint metadata. */
  lemma MetadataApart(k: Class, m: Spans, pm: PageMap, t: M.Table, bytes: int, f: Fields, c: Contents,
                      r: SpanRef, o: Addr, p: int, r': SpanRef, o': Addr, p': int)
    requires ClassOk(k) && Geometry(m, pm) && Inv(k, m, t, bytes, f, c) && bytes > 0
    requires r in c.free && r in m && o in Objects(k, m[r]) && o <= p < o + k.size
    requires r' in c.free && r' in m && o' in Objects(k, m[r']) && o' <= p' < o' + k.size && o < o'
    ensures r in c.metaOf && c.metaOf[r] in m && OwnSlot(k, t, bytes, m[r], m[c.metaOf[r]], o, p)
    ensures var x, x' := M.MetaPtr(t, p, bytes), M.MetaPtr(t, p', bytes); x + bytes <= x' || x' + bytes <= x
  {
    hide Pool, ChainsOk, CountsOk, StoredOk, ListsOk, Total, OwnSlot, MetaPair, M.MetaPtr, Objects, ClassOk;
    var q, q' := c.metaOf[r], c.metaOf[r'];
    assert MetaPair(k, m, t, bytes, r, q) && MetaPair(k, m, t, bytes, r', q');
    PairOwnsSlots(k, m, t, bytes, r, q, o, p);
    PairOwnsSlots(k, m, t, bytes, r', q', o', p');
    assert q != q' ==> Apart(m[q], m[q']);
    SlotsApart(k, t, bytes, m[r], m[q], o, p, m[r'], m[q'], o', p');
  }

  // ------------------------------------------------------- the heap underneath

  /** Every span in use in `m` outside `gone` is still there, unchanged. */
  ghost predicate KeepsInUse(m: Spans, m': Spans, gone: set<SpanRef>) {
    forall r {:trigger m[r]} :: r in m && m[r].location == InUse && r !in gone ==> r in m' && m'[r] == m[r]
  }

  lemma InvFrame(k: Class, m: Spans, m': Spans, t: M.Table, t': M.Table, bytes: int, f: Fields, c: Contents,
                 gone: set<SpanRef>)
    requires k.size > 0 && Inv(k, m, t, bytes, f, c) && KeepsInUse(m, m', gone)
    requires forall r :: r in c.free ==> r !in gone && r in c.metaOf && c.metaOf[r] !in gone
    requires forall r :: r in c.free && r in m ==> SameEntries(t, t', m[r])
    ensures Inv(k, m', t', bytes, f, c)
  {
    forall r | r in c.free
      ensures r in m && r in m' && m'[r] == m[r] && m[r].length == k.pages && SameEntries(t, t', m[r])
      ensures c.metaOf[r] in m && c.metaOf[r] in m' && m'[c.metaOf[r]] == m[c.metaOf[r]]
    {
      assert SpanPool(k, m, c.free, c.lent, r) && MetaPair(k, m, t, bytes, r, c.metaOf[r]);
    }
    hide Pool, MetaOk, ChainsOk, StoredOk, Total, ListsOk, KeepsInUse, SameEntries, CountsOk;
    PoolFrame(k, m, m', c.free, c.lent);
    MetaFrame(k, m, m', t, t', bytes, c.free.Keys, c.metaOf);
  }

  // -------------------------------------------------------------- a new span

  function AddFields(f: Fields, r: SpanRef, links: Links, h: Addr, capacity: int): Fields {
    f.(links := links, heads := f.heads[r := h], refcount := f.refcount[r := 0], nonempty := [r] + f.nonempty,
       numSpans := f.numSpans + 1, counter := f.counter + capacity)
  }

  function AddContents(c: Contents, r: SpanRef, objs: seq<Addr>, q: SpanRef): Contents {
    c.(free := c.free[r := objs], lent := c.lent[r := {}], metaOf := c.metaOf[r := q])
  }

  /** Span `r` with metadata span `q` is new to the list. */
  ghost predicate NewPair(k: Class, m: Spans, t: M.Table, bytes: int, c: Contents, r: SpanRef, q: SpanRef)
    requires k.size > 0
  {
    && r !in c.free && q !in c.free && r != q && r in m && m[r].location == InUse
    && m[r].sizeclass == k.id && m[r].length == k.pages
    && (forall s :: s in c.free && s in c.metaOf ==> c.metaOf[s] != r && c.metaOf[s] != q)
    && MetaPair(k, m, t, bytes, r, q)
  }

  lemma MetaAdded(k: Class, m: Spans, t: M.Table, bytes: int, c: Contents, r: SpanRef, q: SpanRef)
    requires k.size > 0 && MetaOk(k, m, t, bytes, c.free.Keys, c.metaOf) && NewPair(k, m, t, bytes, c, r, q)
    ensures MetaOk(k, m, t, bytes, c.free.Keys + {r}, c.metaOf[r := q])
  {
    hide MetaPair;
    var spans, metaOf := c.free.Keys + {r}, c.metaOf[r := q];
    forall s | s in spans ensures MetaPair(k, m, t, bytes, s, metaOf[s]) && metaOf[s] !in spans {
      if s != r { assert MetaPair(k, m, t, bytes, s, c.metaOf[s]); }
    }
  }

  lemma AddLists(nonempty: seq<SpanRef>, empty: seq<SpanRef>, free: Chains, r: SpanRef, objs: seq<Addr>)
    requires ListsOk(nonempty, empty, free) && r !in free && objs != []
    ensures ListsOk([r] + nonempty, empty, free[r := objs])
  {
  }

  lemma AddCounts(refcount: map<SpanRef, int>, lent: Lent, r: SpanRef)
    requires CountsOk(refcount, lent)
    ensures CountsOk(refcount[r := 0], lent[r := {}])
  {
  }

  lemma AddInv(k: Class, m: Spans, pm: PageMap, t: M.Table, bytes: int, f: Fields, c: Contents,
               r: SpanRef, q: SpanRef, links: Links, h: Addr)
    requires ClassOk(k) && Geometry(m, pm) && Inv(k, m, t, bytes, f, c) && NewPair(k, m, t, bytes, c, r, q)
    requires AgreeOutside(f.links, links, Objects(k, m[r])) && ChainOf(links, h, Objects(k, m[r]))
    ensures Inv(k, m, t, bytes, AddFields(f, r, links, h, Capacity(k)), AddContents(c, r, Objects(k, m[r]), q))
  {
    hide Pool, ChainsOk, StoredOk, Total, Geometry, Members, MetaOk, ListsOk, MetaPair, ChainOf, AgreeOutside, CountsOk;
    var objs := Objects(k, m[r]);
    assert objs != [] && |objs| == Capacity(k);
    AddCounts(f.refcount, c.lent, r);
    hide Objects, Capacity;
    PoolAdded(k, m, c.free, c.lent, r);
    AddKeeps(k, m, pm, f.links, links, f.heads, c.free, c.lent, f.slots, c.stored, r, h);
    TotalPut(c.free, r, objs);
    assert c.free - {r} == c.free;
    AddLists(f.nonempty, f.empty, c.free, r, objs);
    MetaAdded(k, m, t, bytes, c, r, q);
    assert c.free[r := objs].Keys == c.free.Keys + {r};
  }

  lemma AddClients(k: Class, m: Spans, pm: PageMap, links: Links, links': Links, free: Chains, lent: Lent, r: SpanRef)
    requires ClassOk(k) && Geometry(m, pm) && Pool(k, m, free, lent) && r !in free
    requires r in m && m[r].location == InUse && m[r].sizeclass == k.id && m[r].length == k.pages
    requires AgreeOutside(links, links', Objects(k, m[r]))
    ensures ClientsUndisturbed(links, links', lent, lent[r := {}], {})
  {
    PoolAdded(k, m, free, lent, r);
    forall o | IsLent(lent, o) ensures IsLent(lent[r := {}], o) && Next(links', o) == Next(links, o) {
      var s :| s in lent && o in lent[s];
      assert s in lent[r := {}] && o in lent[r := {}][s];
      if o in Objects(k, m[r]) { NewObjectsAreNew(k, m, pm, free, lent, r, o); }
    }
  }

  lemma SameEntriesRefl(t: M.Table, m: Spans)
    ensures forall r :: r in m ==> SameEntries(t, t, m[r])
  {
  }

  /** What an allocation returns was in no one's use. */
  lemma GrantIsNew(k: Class, m: Spans, t: M.Table, bytes: int, f: Fields, c: Contents, m': Spans, r: SpanRef, n: int)
    requires k.size > 0 && Inv(k, m, t, bytes, f, c) && Grants(m, m', r, n)
    ensures KeepsInUse(m, m', {}) && Inv(k, m', t, bytes, f, c)
    ensures r !in c.free && forall s :: s in c.free && s in c.metaOf ==> c.metaOf[s] != r
  {
    hide ChainsOk, StoredOk, CountsOk, ListsOk, Total, Members, MetaRegistered, SameEntries;
    forall s | s in c.free ensures s != r && s in c.metaOf && c.metaOf[s] != r {
      assert SpanPool(k, m, c.free, c.lent, s) && MetaPair(k, m, t, bytes, s, c.metaOf[s]);
    }
    hide Pool, MetaOk, SpanPool, MetaPair;
    SameEntriesRefl(t, m);
    InvFrame(k, m, m', t, t, bytes, f, c, {});
  }

  lemma OthersUntouched(k: Class, m: Spans, t: M.Table, bytes: int, f: Fields, c: Contents, m': Spans, r: SpanRef)
    requires k.size > 0 && Inv(k, m, t, bytes, f, c) && KeepsInUse(m, m', {r})
    requires r !in c.free && forall s :: s in c.free && s in c.metaOf ==> c.metaOf[s] != r
    ensures Inv(k, m', t, bytes, f, c)
  {
    forall s | s in c.free ensures s in c.metaOf { assert MetaPair(k, m, t, bytes, s, c.metaOf[s]); }
    SameEntriesRefl(t, m);
    InvFrame(k, m, m', t, t, bytes, f, c, {r});
  }

  /** Both spans allocated, the first registered and entered in the metadata page table. */
  lemma Acquired(k: Class, m: Spans, m1: Spans, m2: Spans, m3: Spans, pm: PageMap, t: M.Table, t': M.Table, bytes: int,
                 f: Fields, c: Contents, r: SpanRef, q: SpanRef)
    requires ClassOk(k) && 0 < bytes <= 16 && Inv(k, m, t, bytes, f, c) && Grants(m, m1, r, k.pages)
    requires m2 == m1[r := m1[r].(sizeclass := k.id)]
    requires Grants(m2, m3, q, MetaPages(k.pages, bytes, MetaShift(k.size))) && Geometry(m3, pm) && r in m3
    requires M.TableSet(t, t', M.PageOf(Base(m3[r])), k.pages * PAGE_SIZE / M.PAGE, Base(m3[q]), MetaShift(k.size),
                        bytes)
    ensures Inv(k, m3, t', bytes, f, c) && NewPair(k, m3, t', bytes, c, r, q)
    ensures InUseRefs(m3) == InUseRefs(m) + {r, q} && r !in InUseRefs(m) && q !in InUseRefs(m)
  {
    hide Inv, InUseRefs, MetaPages, MetaShift, M.TableSet, MetaRegistered, Geometry;
    AcquiredRefs(m, m1, m2, m3, r, q, k);
    GrantIsNew(k, m, t, bytes, f, c, m1, r, k.pages);
    OthersUntouched(k, m1, t, bytes, f, c, m2, r);
    GrantIsNew(k, m2, t, bytes, f, c, m3, q, MetaPages(k.pages, bytes, MetaShift(k.size)));
    assert m3[r] == m2[r];
    SetRegisters(k, m3, pm, t, t', bytes, r, q);
    EntriesOfOthers(k, m3, pm, t, t', bytes, f, c, r, Base(m3[q]), MetaShift(k.size));
    InvFrame(k, m3, m3, t, t', bytes, f, c, {});
  }

  lemma AcquiredRefs(m: Spans, m1: Spans, m2: Spans, m3: Spans, r: SpanRef, q: SpanRef, k: Class)
    requires Grants(m, m1, r, k.pages) && m2 == m1[r := m1[r].(sizeclass := k.id)]
    requires exists n :: Grants(m2, m3, q, n)
    ensures InUseRefs(m3) == InUseRefs(m) + {r, q} && r !in InUseRefs(m) && q !in InUseRefs(m) && q != r
  {
    var n :| Grants(m2, m3, q, n);
    HeldGranted(m, m1, r, k.pages);
    HeldGranted(m2, m3, q, n);
    assert InUseRefs(m2) == InUseRefs(m1);
    assert q !in InUseRefs(m2) && r in InUseRefs(m2);
  }

  lemma EntriesOfOthers(k: Class, m: Spans, pm: PageMap, t: M.Table, t': M.Table, bytes: int, f: Fields, c: Contents,
                        r: SpanRef, metaptr: int, a: nat)
    requires k.size > 0 && Geometry(m, pm) && Inv(k, m, t, bytes, f, c) && r in m && r !in c.free
    requires m[r].length == k.pages
    requires M.TableSet(t, t', M.PageOf(Base(m[r])), k.pages * PAGE_SIZE / M.PAGE, metaptr, a, bytes)
    ensures forall s :: s in c.free && s in m ==> SameEntries(t, t', m[s])
    ensures forall s :: s in c.free ==> s in c.metaOf
  {
    forall s | s in c.free ensures s in c.metaOf && s in m && SameEntries(t, t', m[s]) {
      assert SpanPool(k, m, c.free, c.lent, s) && MetaPair(k, m, t, bytes, s, c.metaOf[s]);
      assert Apart(m[s], m[r]);
      SetElsewhere(t, t', m[s], m[r], metaptr, a, bytes);
    }
  }

  /** The data span was allocated, the metadata span was not, the data span went back. */
  lemma AcquireFailed(k: Class, m: Spans, m1: Spans, m2: Spans, m3: Spans, m4: Spans, t: M.Table, bytes: int,
                      f: Fields, c: Contents, r: SpanRef)
    requires ClassOk(k) && Inv(k, m, t, bytes, f, c) && Grants(m, m1, r, k.pages)
    requires m2 == m1[r := m1[r].(sizeclass := k.id)] && SameInUse(m2, m3) && r in m3
    requires Coarsens(Relocated(m3, r, Normal), m4)
    ensures Inv(k, m4, t, bytes, f, c) && InUseRefs(m4) == InUseRefs(m)
  {
    hide Inv, Coarsens, InUseRefs;
    GrantIsNew(k, m, t, bytes, f, c, m1, r, k.pages);
    OthersUntouched(k, m1, t, bytes, f, c, m2, r);
    OthersUntouched(k, m2, t, bytes, f, c, m3, r);
    DeleteKeeps(m3, m4, r);
    OthersUntouched(k, m3, t, bytes, f, c, m4, r);
    FailedRefs(m, m1, m2, m3, m4, r, k);
  }

  lemma DeleteKeeps(m: Spans, m': Spans, r: SpanRef)
    requires r in m && Coarsens(Relocated(m, r, Normal), m')
    ensures KeepsInUse(m, m', {r})
  {
    hide SamePages, StillFree;
    forall s {:trigger m[s]} | s in m && m[s].location == InUse && s != r ensures s in m' && m'[s] == m[s] {
      assert Relocated(m, r, Normal)[s] == m[s];
    }
  }

  lemma FailedRefs(m: Spans, m1: Spans, m2: Spans, m3: Spans, m4: Spans, r: SpanRef, k: Class)
    requires Grants(m, m1, r, k.pages) && m2 == m1[r := m1[r].(sizeclass := k.id)] && SameInUse(m2, m3) && r in m3
    requires Coarsens(Relocated(m3, r, Normal), m4)
    ensures InUseRefs(m4) == InUseRefs(m)
  {
    HeldGranted(m, m1, r, k.pages);
    assert InUseRefs(m2) == InUseRefs(m1);
    HeldSame(m2, m3);
    HeldFreed(m3, m4, r);
    assert r !in InUseRefs(m);
  }

  /** The spans the page heap gets back when `o`, lent from `r`, returns: `r` and its
      metadata span if `o` was the last object out, otherwise none. */
  ghost function Spent(c: Contents, r: SpanRef, o: Addr): set<SpanRef> {
    if r in c.lent && c.lent[r] == {o} && r in c.metaOf then {r, c.metaOf[r]} else {}
  }

  /** No other span uses `r` or its metadata span. */
  lemma PairIsOwn(k: Class, m: Spans, t: M.Table, bytes: int, f: Fields, c: Contents, r: SpanRef)
    requires k.size > 0 && Inv(k, m, t, bytes, f, c) && r in c.free && r in c.metaOf
    ensures r in m && m[r].length == k.pages
    ensures var c' := DropContents(c, r);
      && c.metaOf[r] !in c'.free
      && forall s :: s in c'.free ==> s in c'.metaOf && c'.metaOf[s] != c.metaOf[r] && c'.metaOf[s] != r
  {
    assert SpanPool(k, m, c.free, c.lent, r) && MetaPair(k, m, t, bytes, r, c.metaOf[r]);
    forall s | s in c.free && s != r ensures s in c.metaOf && c.metaOf[s] != c.metaOf[r] && c.metaOf[s] != r {
      assert MetaPair(k, m, t, bytes, s, c.metaOf[s]);
    }
  }

  /** Data and metadata span of a dropped span go back to the page heap. */
  lemma FreedPair(k: Class, m: Spans, m1: Spans, m2: Spans, pm: PageMap, t: M.Table, t': M.Table, bytes: int,
                  f: Fields, c: Contents, f': Fields, r: SpanRef, q: SpanRef)
    requires ClassOk(k) && Geometry(m, pm) && Inv(k, m, t, bytes, f, c)
    requires r in c.free && r in c.metaOf && q == c.metaOf[r] && q != r
    requires Inv(k, m, t, bytes, f', DropContents(c, r)) && r in m && q in m && r in m1
    requires M.TableSet(t, t', M.PageOf(Base(m[r])), k.pages * PAGE_SIZE / M.PAGE, 0, 0, bytes)
    requires Coarsens(Relocated(m, q, Normal), m1) && Coarsens(Relocated(m1, r, Normal), m2)
    ensures Inv(k, m2, t', bytes, f', DropContents(c, r))
    ensures InUseRefs(m2) == InUseRefs(m) - {r, q}
  {
    hide Coarsens, InUseRefs, M.TableSet, Geometry, Inv, Relocated, DropContents;
    var c' := DropContents(c, r);
    PairIsOwn(k, m, t, bytes, f, c, r);
    assert r !in c'.free by { DroppedIsGone(c, r); }
    EntriesOfOthers(k, m, pm, t, t', bytes, f', c', r, 0, 0);
    InvFrame(k, m, m, t, t', bytes, f', c', {});
    BothDeleted(k, m, m1, m2, t', bytes, f', c', r, q);
    HeldFreed(m, m1, q);
    HeldFreed(m1, m2, r);
  }

  lemma DroppedIsGone(c: Contents, r: SpanRef)
    ensures r !in DropContents(c, r).free
  {
  }

  lemma BothDeleted(k: Class, m: Spans, m1: Spans, m2: Spans, t: M.Table, bytes: int, f: Fields, c: Contents,
                    r: SpanRef, q: SpanRef)
    requires k.size > 0 && Inv(k, m, t, bytes, f, c) && r in m1 && q in m && r !in c.free && q !in c.free
    requires forall s :: s in c.free && s in c.metaOf ==> c.metaOf[s] != q && c.metaOf[s] != r
    requires Coarsens(Relocated(m, q, Normal), m1) && Coarsens(Relocated(m1, r, Normal), m2)
    ensures Inv(k, m2, t, bytes, f, c)
  {
    hide Coarsens, Inv, Relocated;
    DeleteKeeps(m, m1, q);
    OthersUntouched(k, m, t, bytes, f, c, m1, q);
    DeleteKeeps(m1, m2, r);
    OthersUntouched(k, m1, t, bytes, f, c, m2, r);
  }

  // -------------------------------------------------------- steps of the loops

  lemma NewPairFacts(k: Class, m: Spans, pm: PageMap, t: M.Table, bytes: int, f: Fields, c: Contents, r: SpanRef,
                     q: SpanRef)
    requires ClassOk(k) && Geometry(m, pm) && Inv(k, m, t, bytes, f, c) && NewPair(k, m, t, bytes, c, r, q)
    ensures r !in c.free && r in m && m[r].location == InUse && m[r].sizeclass == k.id && m[r].length == k.pages
    ensures Base(m[r]) > 0 && Pool(k, m, c.free, c.lent)
    ensures Objects(k, m[r]) == Carved(Base(m[r]), k.size, k.pages * PAGE_SIZE / k.size)
  {
  }

  lemma NoneLentBefore(l: Links, l': Links, n: Lent, n': Lent, objs: seq<Addr>)
    requires ClientsUndisturbed(l, l', n, n', {}) && NoneLent(n', objs)
    ensures NoneLent(n, objs)
  {
    hide IsLent;
  }

  lemma BothFresh(n: Lent, s: seq<Addr>, t: seq<Addr>)
    requires NoneLent(n, s) && NoneLent(n, t)
    ensures NoneLent(n, s + t)
  {
    hide IsLent;
  }

  lemma PushRange(k: Class, m: Spans, pm: PageMap, t: M.Table, bytes: int, f: Fields, c: Contents, was: Lent,
                  start: Addr, objs: seq<Addr>, head: Addr, got: seq<Addr>)
    requires ClassOk(k) && Geometry(m, pm) && Inv(k, m, t, bytes, f, c) && got != []
    requires Held(f.links, c.lent, c.stored, start, objs) && Held(f.links, c.lent, c.stored, head, got)
    requires AllLent(was, objs) && NoneLent(was, got)
    ensures Inv(k, m, t, bytes, f.(links := f.links[Last(got) := start]), c)
    ensures Held(f.links[Last(got) := start], c.lent, c.stored, head, got + objs)
  {
    hide Geometry, Inv, Held, IsLent;
    HeldMember(f.links, c.lent, c.stored, head, got, |got| - 1);
    WriteInv(k, m, pm, t, bytes, f, c, Last(got), start);
    FreshApart(was, objs, got);
    JoinHeld(f.links, c.lent, c.stored, start, objs, head, got);
  }

  lemma WrittenElsewhere(l: Links, l': Links, n: Lent, n': Lent, got: seq<Addr>, v: Addr)
    requires ClientsUndisturbed(l, l', n, n', {}) && NoneLent(n, got) && got != []
    ensures ClientsUndisturbed(l, l'[Last(got) := v], n, n', {})
  {
    hide IsLent;
    assert !IsLent(n, got[|got| - 1]);
  }

  lemma KeptByDelete(m: Spans, m': Spans, q: SpanRef, r: SpanRef)
    requires q in m && Coarsens(Relocated(m, q, Normal), m') && r in m && m[r].location == InUse && r != q
    ensures r in m' && m'[r] == m[r]
  {
    DeleteKeeps(m, m', q);
  }

  lemma CapacityIs(k: Class)
    requires ClassOk(k)
    ensures Capacity(k) == k.pages * PAGE_SIZE / k.size
  {
  }

  ghost function SpanLent(lent: Lent, o: Addr): SpanRef
    requires IsLent(lent, o)
    ensures SpanLent(lent, o) in lent && o in lent[SpanLent(lent, o)]
  {
    var r :| r in lent && o in lent[r];
    r
  }

  lemma NothingReleased(links: Links, lent: Lent, objs: seq<Addr>)
    ensures NoneLent(lent, objs[..0]) && ClientsUndisturbed(links, links, lent, lent, Members(objs[..0]))
  {
  }

  lemma HeldHead(links: Links, lent: Lent, stored: seq<seq<Addr>>, p: Addr, s: seq<Addr>)
    requires Held(links, lent, stored, p, s) && p != NULL
    ensures s != [] && s[0] == p && IsLent(lent, p) && Unparked(stored, p)
  {
  }

  lemma HeldEnd(links: Links, lent: Lent, stored: seq<seq<Addr>>, s: seq<Addr>)
    requires Held(links, lent, stored, NULL, s)
    ensures s == []
  {
    ChainEnd(links, NULL, s);
  }

  lemma HeldRest(l: Links, l': Links, n: Lent, n': Lent, stored: seq<seq<Addr>>, p: Addr, s: seq<Addr>)
    requires Held(l, n, stored, p, s) && s != [] && p == s[0] && ClientsUndisturbed(l, l', n, n', {p})
    ensures Held(l', n', stored, Next(l, p), s[1..])
  {
    ChainTail(l, p, s);
    assert Held(l, n, stored, Next(l, p), s[1..]);
    hide IsLent, ChainOf;
    HeldKept(l, l', n, n', {p}, stored, Next(l, p), s[1..]);
  }

  lemma OneMoreReleased(l0: Links, l: Links, l': Links, n0: Lent, n: Lent, n': Lent, objs: seq<Addr>, i: int)
    requires 0 <= i < |objs| && ClientsUndisturbed(l0, l, n0, n, Members(objs[..i])) && NoneLent(n, objs[..i])
    requires ClientsUndisturbed(l, l', n, n', {objs[i]}) && !IsLent(n', objs[i])
    requires LentShrinks(n, n')
    ensures ClientsUndisturbed(l0, l', n0, n', Members(objs[..i + 1])) && NoneLent(n', objs[..i + 1])
  {
    hide IsLent;
    var s, s' := objs[..i], objs[..i + 1];
    assert s' == s + [objs[i]];
    forall x | x in Members(s) ensures x in Members(s') {
      var j :| 0 <= j < i && s[j] == x;
      assert s'[j] == x;
    }
    assert s'[i] == objs[i];
  }

  /** The objects of `s` linked up to `tail`, the last, whose own word is not written yet. */
  ghost predicate OpenChain(before: Links, links: Links, head: Addr, tail: Addr, s: seq<Addr>) {
    && head == Head(s) && tail == Last(s) && AgreeOutside(before, links, s)
    && forall i :: 0 <= i < |s| - 1 ==> LinkOk(links, s, i)
  }

  lemma PiecesNone(before: Links, base: Addr, size: int)
    ensures OpenChain(before, before, NULL, NULL, Carved(base, size, 0))
  {
  }

  lemma ChainOpens(before: Links, links: Links, head: Addr, tail: Addr, s: seq<Addr>, o: Addr)
    requires OpenChain(before, links, head, tail, s) && NoRepeats(s + [o]) && (s != [] ==> tail != NULL)
    ensures OpenChain(before, if s == [] then links else links[tail := o], if s == [] then o else head, o, s + [o])
  {
    var s', links' := s + [o], if s == [] then links else links[tail := o];
    forall i | 0 <= i < |s| ensures LinkOk(links', s', i) {
      assert s'[i] == s[i];
      if i < |s| - 1 { assert LinkOk(links, s, i) && s'[i] != s'[|s| - 1]; }
    }
  }

  lemma OneMorePiece(before: Links, links: Links, head: Addr, tail: Addr, base: Addr, size: int, n: nat)
    requires OpenChain(before, links, head, tail, Carved(base, size, n)) && base > 0 && size > 0
    ensures var ptr := base + n * size;
      OpenChain(before, if n == 0 then links else links[tail := ptr], if n == 0 then ptr else head, ptr,
                Carved(base, size, n + 1))
  {
    hide OpenChain;
    OnePieceMore(base, size, n);
    CarvedDistinct(base, size, n + 1);
    assert n > 0 ==> tail != NULL by {
      if n > 0 { PiecePositive(base, size, n, n - 1); OpenTail(before, links, head, tail, Carved(base, size, n)); }
    }
    ChainOpens(before, links, head, tail, Carved(base, size, n), base + n * size);
  }

  lemma OpenTail(before: Links, links: Links, head: Addr, tail: Addr, s: seq<Addr>)
    requires OpenChain(before, links, head, tail, s) && s != []
    ensures tail == s[|s| - 1]
  {
  }

  lemma OnePieceMore(base: Addr, size: int, n: nat)
    ensures |Carved(base, size, n)| == n && Carved(base, size, n + 1) == Carved(base, size, n) + [base + n * size]
  {
  }

  lemma PiecePositive(base: Addr, size: int, n: nat, i: int)
    requires base > 0 && size > 0 && 0 <= i < n
    ensures |Carved(base, size, n)| == n && Carved(base, size, n)[i] > 0
  {
    MulMono(0, i, size);
  }

  lemma ClosedChain(before: Links, links: Links, head: Addr, tail: Addr, base: Addr, size: int, n: nat)
    requires OpenChain(before, links, head, tail, Carved(base, size, n)) && base > 0 && size > 0
    ensures var links' := if n == 0 then links else links[tail := NULL];
      ChainOf(links', head, Carved(base, size, n)) && AgreeOutside(before, links', Carved(base, size, n))
  {
    var s := Carved(base, size, n);
    var links' := if n == 0 then links else links[tail := NULL];
    CarvedDistinct(base, size, n);
    assert |s| == n;
    hide Carved;
    forall i | 0 <= i < n ensures LinkOk(links', s, i) {
      PiecePositive(base, size, n, i);
      if i < n - 1 { assert LinkOk(links, s, i); }
    }
  }

  // ------------------------------------------------------------ whole runs

  /** Chains in the hands of clients: each one held, no object in two of them. */
  ghost predicate Hands(links: Links, lent: Lent, stored: seq<seq<Addr>>, hands: seq<Slot>, objs: seq<seq<Addr>>) {
    && |hands| == |objs|
    && (forall i {:trigger InHand(links, lent, stored, hands[i], objs[i])} :: 0 <= i < |hands| ==>
         InHand(links, lent, stored, hands[i], objs[i]))
    && (forall i, j :: 0 <= i < |objs| && 0 <= j < |objs| && i != j ==> Apart2(objs[i], objs[j]))
  }

  ghost predicate InHand(links: Links, lent: Lent, stored: seq<seq<Addr>>, s: Slot, objs: seq<Addr>) {
    Held(links, lent, stored, s.head, objs) && s.tail == Last(objs)
  }

  /** No object has two owners: the free chains, the parked chains and the hands of
      clients share nothing. */
  lemma OneOwner(k: Class, m: Spans, pm: PageMap, t: M.Table, bytes: int, f: Fields, c: Contents,
                 hands: seq<Slot>, objs: seq<seq<Addr>>, i: int, o: Addr)
    requires ClassOk(k) && Geometry(m, pm) && Inv(k, m, t, bytes, f, c) && Hands(f.links, c.lent, c.stored, hands, objs)
    requires 0 <= i < |objs| && o in objs[i]
    ensures forall r :: r in c.free ==> o !in c.free[r]
    ensures Unparked(c.stored, o)
    ensures forall j :: 0 <= j < |objs| && j != i ==> o !in objs[j]
    ensures exists r :: r in c.free && r in m && r in c.lent && o in c.lent[r] && o in Objects(k, m[r])
  {
    assert InHand(f.links, c.lent, c.stored, hands[i], objs[i]);
    var n :| 0 <= n < |objs[i]| && objs[i][n] == o;
    HeldMember(f.links, c.lent, c.stored, hands[i].head, objs[i], n);
    LentIsNotFree(k, m, pm, c.free, c.lent, o);
    forall j | 0 <= j < |objs| && j != i ensures o !in objs[j] { assert Apart2(objs[i], objs[j]); }
    var r := SpanLent(c.lent, o);
    assert SpanPool(k, m, c.free, c.lent, r);
    assert o in Members(Objects(k, m[r]));
  }

  /** A chain handed out joins the hands. */
  lemma HandsMore(l: Links, l': Links, n: Lent, n': Lent, stored: seq<seq<Addr>>, stored': seq<seq<Addr>>,
                  hands: seq<Slot>, objs: seq<seq<Addr>>, h: Slot, got: seq<Addr>)
    requires Hands(l, n, stored, hands, objs) && ClientsUndisturbed(l, l', n, n', {})
    requires InHand(l', n', stored', h, got)
    requires (stored' == stored && NoneLent(n, got)) || (stored == stored' + [got])
    ensures Hands(l', n', stored', hands + [h], objs + [got])
  {
    hide IsLent, ChainOf, NoRepeats, ClientsUndisturbed;
    forall i | 0 <= i < |hands|
      ensures InHand(l', n', stored', hands[i], objs[i]) && Apart2(objs[i], got) && Apart2(got, objs[i])
    {
      assert InHand(l, n, stored, hands[i], objs[i]);
      HeldKept(l, l', n, n', {}, stored, hands[i].head, objs[i]);
      if stored != stored' {
        assert stored[|stored'|] == got;
        forall j | 0 <= j < |stored'| ensures Apart2(objs[i], stored'[j]) { assert stored[j] == stored'[j]; }
      }
    }
    forall i | 0 <= i < |hands + [h]| ensures InHand(l', n', stored', (hands + [h])[i], (objs + [got])[i]) {
      if i < |hands| { assert InHand(l', n', stored', hands[i], objs[i]); }
    }
  }

  /** Hand `i` given back, to the spans or to a parking slot. */
  lemma HandsLess(l: Links, l': Links, n: Lent, n': Lent, stored: seq<seq<Addr>>, stored': seq<seq<Addr>>,
                  hands: seq<Slot>, objs: seq<seq<Addr>>, i: int)
    requires Hands(l, n, stored, hands, objs) && 0 <= i < |hands|
    requires ClientsUndisturbed(l, l', n, n', Members(objs[i])) && (stored' == stored || stored' == stored + [objs[i]])
    ensures Hands(l', n', stored', hands[..i] + hands[i + 1..], objs[..i] + objs[i + 1..])
  {
    hide IsLent, ChainOf, NoRepeats, ClientsUndisturbed;
    var hands', objs' := hands[..i] + hands[i + 1..], objs[..i] + objs[i + 1..];
    forall j | 0 <= j < |hands| && j != i ensures InHand(l', n', stored', hands[j], objs[j]) {
      assert InHand(l, n, stored, hands[j], objs[j]) && Apart2(objs[j], objs[i]);
      HeldKept(l, l', n, n', Members(objs[i]), stored, hands[j].head, objs[j]);
    }
    forall j | 0 <= j < |hands'| ensures InHand(l', n', stored', hands'[j], objs'[j]) {
      assert InHand(l', n', stored', hands[if j < i then j else j + 1], objs[if j < i then j else j + 1]);
    }
    forall x, y | 0 <= x < |objs'| && 0 <= y < |objs'| && x != y ensures Apart2(objs'[x], objs'[y]) {
      assert Apart2(objs[if x < i then x else x + 1], objs[if y < i then y else y + 1]);
    }
  }

  lemma NothingHeld(links: Links, lent: Lent, stored: seq<seq<Addr>>)
    ensures ClientsUndisturbed(links, links, lent, lent, {})
    ensures Held(links, lent, stored, NULL, []) && NoneLent(lent, [])
  {
  }
}
