/** The page-level allocator: spans of pages, boundary tags, free lists per length,
    coalescing, scavenging and a heap limit. */
module PageHeaps {
  import opened Common
  import opened SpanTable

  const MAX_VALID_PAGES: int := 0x7_FFFF_FFFF_FFFF
  const MIN_SYSTEM_ALLOC: int := MAX_PAGES
  const FORCED_COALESCE_INTERVAL: int := 128 * 1024 * 1024

  datatype Stats = Stats(systemBytes: int, freeBytes: int, unmappedBytes: int, committedBytes: int)

  /** The four statistics, as page totals.  `listed` are the spans not in transit
      between lists; `leaked` pages came from the system but were never recorded. */
  ghost predicate Books(m: Spans, listed: Spans, st: Stats, leaked: int) {
    && st.freeBytes == PAGE_SIZE * PagesAt(listed, Normal)
    && st.unmappedBytes == PAGE_SIZE * PagesAt(listed, Returned)
    && st.committedBytes == PAGE_SIZE * (PagesAt(m, InUse) + PagesAt(m, Normal) + leaked)
    && st.systemBytes == st.committedBytes + PAGE_SIZE * PagesAt(m, Returned)
  }

  function Debit(st: Stats, s: Span): Stats {
    if s.location == Normal then st.(freeBytes := st.freeBytes - s.length * PAGE_SIZE)
    else st.(unmappedBytes := st.unmappedBytes - s.length * PAGE_SIZE)
  }

  function Credit(st: Stats, s: Span): Stats {
    if s.location == Normal then st.(freeBytes := st.freeBytes + s.length * PAGE_SIZE)
    else st.(unmappedBytes := st.unmappedBytes + s.length * PAGE_SIZE)
  }

  lemma BooksIn(m: Spans, st: Stats, leaked: int, r: SpanRef)
    requires Books(m, m - {r}, st, leaked) && r in m && m[r].Free()
    ensures Books(m, m, Credit(st, m[r]), leaked)
  {
    PagesDrop(m, Normal, r);
    PagesDrop(m, Returned, r);
  }

  lemma BooksAbsorbed(m: Spans, st: Stats, leaked: int, r: SpanRef, q: SpanRef)
    requires Books(m, m - {r}, st, leaked) && r in m && q in m && r != q
    requires m[r].Free() && m[q].location == m[r].location
    ensures Books(Absorbed(m, r, q), Absorbed(m, r, q) - {r}, Debit(st, m[q]), leaked)
  {
    PagesAbsorbed(m, Normal, r, q);
    PagesAbsorbed(m, Returned, r, q);
    PagesAbsorbed(m, InUse, r, q);
  }

  // ------------------------------------------------------ merging at an edge

  ghost predicate NothingBefore(m: Spans, r: SpanRef)
    requires r in m
  {
    forall t :: t in m && t != r ==> !Meet(m[t], m[r])
  }

  ghost predicate NothingAfter(m: Spans, r: SpanRef)
    requires r in m
  {
    forall t :: t in m && t != r ==> !Meet(m[r], m[t])
  }

  lemma EdgeBefore(m: Spans, pm: PageMap, r: SpanRef)
    requires Geometry(m, pm) && r in m
    requires m[r].start - 1 in pm ==> pm[m[r].start - 1] in m && m[pm[m[r].start - 1]].location != m[r].location
    ensures NothingBefore(m, r)
  {
    forall t | t in m && t != r ensures !Meet(m[t], m[r]) {
      if m[t].End() == m[r].start { NeighbourIsTagged(m, pm, r, t); }
    }
  }

  lemma EdgeAfter(m: Spans, pm: PageMap, r: SpanRef)
    requires Geometry(m, pm) && r in m
    requires m[r].End() in pm ==> pm[m[r].End()] in m && m[pm[m[r].End()]].location != m[r].location
    ensures NothingAfter(m, r)
  {
    forall t | t in m && t != r ensures !Meet(m[r], m[t]) {
      if m[r].End() == m[t].start { NeighbourIsTagged(m, pm, t, r); }
    }
  }

  /** Absorbing a neighbour closes that side and leaves the other side as it was. */
  lemma AbsorbedEdges(m: Spans, r: SpanRef, q: SpanRef)
    requires Coalesced(m, {r})
    requires r in m && q in m && r != q && m[r].Free() && m[q].location == m[r].location
    ensures m[q].End() == m[r].start && m[q].length >= 0 ==> NothingBefore(Absorbed(m, r, q), r)
    ensures m[r].End() == m[q].start && m[r].length >= 0 ==> NothingAfter(Absorbed(m, r, q), r)
  {
    var m' := Absorbed(m, r, q);
    forall t | t in m' && t != r
      ensures m[q].End() == m[r].start && m[q].length >= 0 ==> !Meet(m'[t], m'[r])
      ensures m[r].End() == m[q].start && m[r].length >= 0 ==> !Meet(m'[r], m'[t])
    {
      assert !Meet(m[t], m[q]) && !Meet(m[q], m[t]);
    }
  }

  lemma CoalescedAbsorbed(m: Spans, pm: PageMap, r: SpanRef, q: SpanRef)
    requires Coalesced(m, {r}) && r in m && q in m
    ensures Coalesced(Absorbed(m, r, q), {r})
  {
    var m' := Absorbed(m, r, q);
    forall s, t | s in m' && t in m' && s != r && t != r && Meet(m'[s], m'[t]) ensures m'[s].location == InUse {
      assert Meet(m[s], m[t]);
    }
  }

  lemma CoalescedWith(m: Spans, pm: PageMap, r: SpanRef)
    requires Geometry(m, pm) && r in m && Coalesced(m, {r}) && NothingBefore(m, r) && NothingAfter(m, r)
    ensures Coalesced(m, {})
  {
  }

  ghost predicate SameTotals(m: Spans, m': Spans) {
    forall loc :: PagesAt(m, loc) == PagesAt(m', loc)
  }

  lemma MergeNone(m: Spans)
    ensures Coarsens(m, m) && SameTotals(m, m)
  {
    CoarsensRefl(m);
  }

  lemma MergeOne(m: Spans, pm: PageMap, r: SpanRef, q: SpanRef)
    requires Geometry(m, pm) && Coalesced(m, {r})
    requires r in m && q in m && r != q && m[r].Free() && m[q].location == m[r].location && Touch(m[r], m[q])
    ensures Coarsens(m, Absorbed(m, r, q)) && SameTotals(m, Absorbed(m, r, q))
    ensures r in Absorbed(m, r, q) && Inside(m[r], Absorbed(m, r, q)[r])
    ensures Absorbed(m, r, q)[r].location == m[r].location
    ensures m[q].End() == m[r].start ==>
      NothingBefore(Absorbed(m, r, q), r) && Absorbed(m, r, q)[r].End() == m[r].End()
    ensures m[r].End() == m[q].start ==> NothingAfter(Absorbed(m, r, q), r)
    ensures m[r].End() == m[q].start && NothingBefore(m, r) ==> NothingBefore(Absorbed(m, r, q), r)
  {
    CoarsensAbsorbed(m, r, q);
    AbsorbedEdges(m, r, q);
    forall loc ensures PagesAt(m, loc) == PagesAt(Absorbed(m, r, q), loc) { PagesAbsorbed(m, loc, r, q); }
    if m[r].End() == m[q].start && NothingBefore(m, r) {
      forall t | t in Absorbed(m, r, q) && t != r ensures !Meet(m[t], Absorbed(m, r, q)[r]) {
        assert !Meet(m[t], m[r]);
      }
    }
  }

  lemma MergeTwice(m: Spans, m': Spans, m'': Spans)
    requires Coarsens(m, m') && SameTotals(m, m') && Coarsens(m', m'') && SameTotals(m', m'')
    ensures Coarsens(m, m'') && SameTotals(m, m'')
  {
    CoarsensTrans(m, m', m'');
  }

  // ----------------------------------------------------------------- carving

  /** The spans after the first `n` pages of free span `r` are handed out. */
  function CarveResult(m: Spans, r: SpanRef, n: int, f: SpanRef): Spans
    requires r in m
  {
    var m1 := Relocated(m, r, InUse);
    if m[r].length > n then Cut(m1, r, n, f, m[r].location) else m1
  }

  ghost predicate Fit(m: Spans, r: SpanRef, n: int) {
    r in m && m[r].Free() && m[r].length >= n
  }

  ghost predicate NoFit(m: Spans, n: int) {
    forall r :: !Fit(m, r, n)
  }

  ghost predicate CarvedFrom(m: Spans, m': Spans, r: SpanRef, n: int) {
    Fit(m, r, n) && exists f :: f !in m && m' == CarveResult(m, r, n, f)
  }

  lemma CarvedGeometry(m: Spans, pm: PageMap, r: SpanRef, n: int, f: SpanRef)
    requires Geometry(m, pm) && Fit(m, r, n) && n >= 1 && f !in m
    ensures SamePages(m, CarveResult(m, r, n, f))
    ensures m[r].length == n ==> Geometry(CarveResult(m, r, n, f), pm)
    ensures m[r].length > n ==>
      Geometry(CarveResult(m, r, n, f), CutTags(Relocated(m, r, InUse), pm, r, n, f, m[r].location))
  {
    GeometryRelocated(m, pm, r, InUse);
    if m[r].length > n { GeometryCut(Relocated(m, r, InUse), pm, r, n, f, m[r].location); }
  }

  /** The leftover needs no coalescing: its right neighbour was the right neighbour
      of a span at the same location. */
  lemma CarvedCoalesced(m: Spans, pm: PageMap, r: SpanRef, n: int, f: SpanRef)
    requires Geometry(m, pm) && Coalesced(m, {}) && Fit(m, r, n) && n >= 1 && f !in m
    ensures Coalesced(CarveResult(m, r, n, f), {})
  {
    var m' := CarveResult(m, r, n, f);
    forall s, t | s in m' && t in m' && Meet(m'[s], m'[t]) ensures m'[s].location == InUse {
      assert s in m && s != r ==> Apart(m[r], m[s]);
      assert t in m && t != r ==> !Meet(m[r], m[t]);
      assert s in m && t in m && Meet(m[s], m[t]) ==> m[s].location == InUse;
    }
  }

  lemma CarvedPages(m: Spans, r: SpanRef, n: int, f: SpanRef, loc: Location)
    requires r in m && m[r].Free() && m[r].length >= n && f !in m
    ensures PagesAt(CarveResult(m, r, n, f), loc)
         == PagesAt(m, loc) + (if loc == InUse then n else if loc == m[r].location then -n else 0)
  {
    PagesRelocated(m, loc, r, InUse);
    if m[r].length > n { PagesCut(Relocated(m, r, InUse), loc, r, n, f, m[r].location); }
  }

  /** What a client gets from an allocation of `n` pages. */
  ghost predicate Grants(m: Spans, m': Spans, r: SpanRef, n: int) {
    && r in m' && m'[r].location == InUse && m'[r].length == n && m'[r].sizeclass == 0
    && (r in m ==> m[r].Free())
    && (forall s {:trigger m[s]} {:trigger m'[s]} ::
         (s in m && m[s].location == InUse ==> s in m' && m'[s] == m[s])
         && (s in m' && m'[s].location == InUse && s != r ==> s in m && m[s] == m'[s]))
  }

  lemma CarvedGrants(m0: Spans, m: Spans, m': Spans, r: SpanRef, n: int)
    requires SameInUse(m0, m) && CarvedFrom(m, m', r, n)
    ensures Grants(m0, m', r, n)
  {
    var f :| f !in m && m' == CarveResult(m, r, n, f);
  }

  lemma FiledCarved(m: Spans, nl: Lists, rl: Lists, r: SpanRef, n: int, f: SpanRef)
    requires Filed(m, nl, rl, {}) && Fit(m, r, n) && f !in m
    ensures var m', nl', rl' := CarveResult(m, r, n, f), Unfile(m, nl, Normal, r), Unfile(m, rl, Returned, r);
      if m[r].length > n then Filed(m', File(m', nl', Normal, f), File(m', rl', Returned, f), {})
      else Filed(m', nl', rl', {})
  {
    var m', nl', rl' := CarveResult(m, r, n, f), Unfile(m, nl, Normal, r), Unfile(m, rl, Returned, r);
    FiledOut(m, nl, rl, {}, r);
    assert {} + {r} == {r};
    FiledFrame(m, m', nl', rl', {r}, if m[r].length > n then {f} else {});
    if m[r].length > n { FiledIn(m', nl', rl', f); }
  }

  /** The statistics after carving: `n` pages leave the free total of their
      location, and are committed again if the system had taken them back. */
  function CarvedStats(st: Stats, loc: Location, n: int): Stats {
    if loc == Normal then st.(freeBytes := st.freeBytes - n * PAGE_SIZE)
    else st.(unmappedBytes := st.unmappedBytes - n * PAGE_SIZE, committedBytes := st.committedBytes + n * PAGE_SIZE)
  }

  lemma BooksCarved(m: Spans, st: Stats, leaked: int, r: SpanRef, n: int, f: SpanRef)
    requires Books(m, m, st, leaked) && Fit(m, r, n) && f !in m
    ensures var m' := CarveResult(m, r, n, f); Books(m', m', CarvedStats(st, m[r].location, n), leaked)
  {
    CarvedPages(m, r, n, f, Normal);
    CarvedPages(m, r, n, f, Returned);
    CarvedPages(m, r, n, f, InUse);
  }

  lemma SpanFitsInt(m: Spans, pm: PageMap, st: Stats, leaked: int, r: SpanRef)
    requires Geometry(m, pm) && Books(m, m, st, leaked) && leaked >= 0 && r in m
    ensures 1 <= m[r].length <= st.systemBytes / PAGE_SIZE
  {
    PagesBound(m, InUse, r);
    PagesBound(m, Normal, r);
    PagesBound(m, Returned, r);
  }

  /** Carve as it is written: the length of the rest is computed in an `int`, and there is
      a rest only if that is positive. */
  function CarveStep(m: Spans, r: SpanRef, n: int, f: SpanRef): Spans
    requires r in m
  {
    var m1, extra := Relocated(m, r, InUse), ToInt32(m[r].length - n);
    if extra > 0 then m1[f := Span(m[r].start + n, extra, m[r].location, 0)][r := m1[r].(length := n)] else m1
  }

  /** Split as it is written. */
  function SplitStep(m: Spans, r: SpanRef, n: int, f: SpanRef): Spans
    requires r in m
  {
    m[f := Span(m[r].start + n, ToInt32(m[r].length - n), InUse, 0)][r := m[r].(length := n)]
  }

  /** Carve and Split do what they should exactly when the rest is below 2^31 pages. */
  lemma RestLengthExact(m: Spans, r: SpanRef, n: int, f: SpanRef)
    requires r in m && f !in m && 1 <= n <= m[r].length
    ensures CarveStep(m, r, n, f) == CarveResult(m, r, n, f) <==> m[r].length - n < INT_LIMIT
    ensures SplitStep(m, r, n, f) == Cut(m, r, n, f, InUse) <==> m[r].length - n < INT_LIMIT
  {
    var carved, cut := CarveStep(m, r, n, f), SplitStep(m, r, n, f);
    var rest := m[r].length - n;
    assert ToInt32(rest) == rest <==> rest < INT_LIMIT;
    assert cut[f].length == ToInt32(rest) && Cut(m, r, n, f, InUse)[f].length == rest;
    if rest > 0 && f in carved {
      assert carved[f].length == ToInt32(rest) && CarveResult(m, r, n, f)[f].length == rest;
    }
  }

  /** From a span of 2^31 + 1 pages one page is asked for, and all of it is granted: the
      rest has a negative length and is not cut off.  Split makes it a record of negative
      length. */
  lemma RestLengthWraps()
    ensures var m: Spans := map[0 := Span(1, INT_LIMIT + 1, Normal, 0)];
      && Sized(m)
      && CarveStep(m, 0, 1, 1) == map[0 := Span(1, INT_LIMIT + 1, InUse, 0)]
      && SplitStep(m, 0, 1, 1)[1].length == -INT_LIMIT
  {
  }

  /** From a span of 2^32 + 2 pages one page is asked for: of the rest only one page is
      filed, and the page after it belongs to no span any more. */
  lemma RestLengthOrphans()
    ensures var m: Spans := map[0 := Span(1, 2 * INT_LIMIT + 2, Normal, 0)];
      && Sized(m) && Owns(m, 3)
      && CarveStep(m, 0, 1, 1) == map[0 := Span(1, 1, InUse, 0), 1 := Span(2, 1, Normal, 0)]
      && !Owns(CarveStep(m, 0, 1, 1), 3)
  {
    var m: Spans := map[0 := Span(1, 2 * INT_LIMIT + 2, Normal, 0)];
    assert m[0].Covers(3);
    assert ToInt32(2 * INT_LIMIT + 2 - 1) == 1;
    assert CarveStep(m, 0, 1, 1) == map[0 := Span(1, 1, InUse, 0), 1 := Span(2, 1, Normal, 0)];
  }

  // ---------------------------------------------------------------- best fit

  ghost predicate Better(a: Span, b: Span) {
    a.length < b.length || (a.length == b.length && a.start < b.start)
  }

  /** Address-ordered best fit among the spans too long for an exact-size list. */
  ghost predicate BestLarge(m: Spans, r: SpanRef, n: int) {
    && Fit(m, r, n) && m[r].length >= MAX_PAGES
    && forall s :: s in m && m[s].Free() && m[s].length >= MAX_PAGES && m[s].length >= n ==> !Better(m[s], m[r])
  }

  /** A shortest sufficient span; among equals below MAX_PAGES a committed one is
      preferred, from MAX_PAGES on the one at the lowest address. */
  ghost predicate BestFit(m: Spans, r: SpanRef, n: int) {
    && Fit(m, r, n)
    && (forall s :: s in m && m[s].Free() && m[s].length >= n ==> m[r].length <= m[s].length)
    && (forall s :: s in m && m[s].Free() && m[s].length == m[r].length ==>
         if m[r].length < MAX_PAGES then m[s].location == Normal ==> m[r].location == Normal
         else m[r].start <= m[s].start)
  }

  // ------------------------------------- spans going in transit between lists

  /** A span handed back by the client is floating: its list entry is the only
      thing missing. */
  lemma FreedFloats(m: Spans, pm: PageMap, nl: Lists, rl: Lists, st: Stats, leaked: int, r: SpanRef)
    requires Geometry(m, pm) && Filed(m, nl, rl, {}) && Coalesced(m, {}) && Books(m, m, st, leaked)
    requires r in m && m[r].location == InUse
    ensures var m' := Relocated(m, r, Normal);
      Geometry(m', pm) && Filed(m', nl, rl, {r}) && Coalesced(m', {r}) && Books(m', m' - {r}, st, leaked)
  {
    var m' := Relocated(m, r, Normal);
    GeometryRelocated(m, pm, r, Normal);
    FiledFrame(m, m', nl, rl, {}, {r});
    CoalescedRelocated(m, r, Normal);
    BooksRelocated(m, r, Normal);
  }

  /** How a span's move to `to` changes the pages at `loc`. */
  function Change(s: Span, to: Location, loc: Location): int {
    (if loc == to then s.length else 0) - Weight(s, loc)
  }

  lemma BooksRelocated(m: Spans, r: SpanRef, to: Location)
    requires r in m && to != InUse
    ensures forall loc :: PagesAt(Relocated(m, r, to), loc) == PagesAt(m, loc) + Change(m[r], to, loc)
    ensures forall loc :: PagesAt(Relocated(m, r, to) - {r}, loc) == PagesAt(m, loc) - Weight(m[r], loc)
  {
    forall loc
      ensures PagesAt(Relocated(m, r, to), loc)
           == PagesAt(m, loc) - Weight(m[r], loc) + (if loc == to then m[r].length else 0)
      ensures PagesAt(Relocated(m, r, to) - {r}, loc) == PagesAt(m, loc) - Weight(m[r], loc)
    {
      PagesRelocated(m, loc, r, to);
      PagesDrop(m, loc, r);
    }
  }

  lemma CoalescedRelocated(m: Spans, r: SpanRef, to: Location)
    requires Coalesced(m, {}) && r in m
    ensures Coalesced(Relocated(m, r, to), {r})
  {
    var m' := Relocated(m, r, to);
    forall s, t | s in m' && t in m' && s != r && t != r && Meet(m'[s], m'[t]) ensures m'[s].location == InUse {
      assert Meet(m[s], m[t]);
    }
  }

  function Decommitted(st: Stats, s: Span): Stats {
    st.(committedBytes := st.committedBytes - s.length * PAGE_SIZE)
  }

  /** A normal span whose memory the system took back is floating on its way to
      the returned lists. */
  lemma ReleasedFloats(m: Spans, pm: PageMap, nl: Lists, rl: Lists, st: Stats, leaked: int, r: SpanRef)
    requires Geometry(m, pm) && Filed(m, nl, rl, {}) && Coalesced(m, {}) && Books(m, m, st, leaked)
    requires r in m && m[r].location == Normal
    ensures var m' := Relocated(m, r, Returned);
      && Geometry(m', pm)
      && Filed(m', Unfile(m, nl, Normal, r), Unfile(m, rl, Returned, r), {r})
      && Coalesced(m', {r})
      && Books(m', m' - {r}, Debit(Decommitted(st, m[r]), m[r]), leaked)
      && Coarsens(m, m')
      && PagesAt(m', Normal) == PagesAt(m, Normal) - m[r].length
      && PagesAt(m', Returned) == PagesAt(m, Returned) + m[r].length
  {
    var m' := Relocated(m, r, Returned);
    GeometryRelocated(m, pm, r, Returned);
    FiledOut(m, nl, rl, {}, r);
    assert {} + {r} == {r};
    FiledFrame(m, m', Unfile(m, nl, Normal, r), Unfile(m, rl, Returned, r), {r}, {r});
    CoalescedRelocated(m, r, Returned);
    BooksRelocated(m, r, Returned);
    CoarsensRelocated(m, r, Returned);
  }

  lemma LastOnList(m: Spans, pm: PageMap, nl: Lists, rl: Lists, i: int)
    requires Geometry(m, pm) && Filed(m, nl, rl, {}) && 0 <= i <= MAX_PAGES && nl[i] != []
    ensures var s := nl[i][|nl[i]| - 1];
      && s in m && m[s].location == Normal && m[s].length >= 1
      && Unfile(m, nl, Normal, s) == nl[i := nl[i][..|nl[i]| - 1]]
  {
    var s := nl[i][|nl[i]| - 1];
    assert ListHolds(m, nl[i], i, Normal, {});
    assert s in nl[i];
    WithoutLast(nl[i]);
  }

  lemma EmptyLists(m: Spans, nl: Lists, rl: Lists)
    requires Filed(m, nl, rl, {}) && forall i :: 0 <= i <= MAX_PAGES ==> nl[i] == []
    ensures PagesAt(m, Normal) == 0
  {
    if PagesAt(m, Normal) != 0 {
      var r := PagesPositive(m, Normal);
      ListedAt(m, nl, Normal, r);
      assert false;
    }
  }

  /** Position `x` of a round-robin walk over the MAX_PAGES + 1 lists. */
  function Wrap(x: int): int { if x > MAX_PAGES then x - MAX_PAGES - 1 else x }

  /** List `k` is among the first `i` of a round-robin walk starting at `first`. */
  predicate Visited(first: int, i: int, k: int) { first <= k < first + i || k + MAX_PAGES + 1 < first + i }

  ghost predicate EmptyFrom(nl: Lists, first: int, i: int) {
    forall k :: 0 <= k < |nl| && Visited(first, i, k) ==> nl[k] == []
  }

  lemma AllEmpty(m: Spans, nl: Lists, rl: Lists, st: Stats, leaked: int, first: int)
    requires Filed(m, nl, rl, {}) && Books(m, m, st, leaked) && 0 <= first <= MAX_PAGES
    requires EmptyFrom(nl, first, MAX_PAGES + 1)
    ensures st.freeBytes == 0
  {
    EmptyLists(m, nl, rl);
  }

  lemma FreeNonNegative(m: Spans, pm: PageMap, st: Stats, leaked: int)
    requires Geometry(m, pm) && Books(m, m, st, leaked)
    ensures st.freeBytes >= 0 && st.unmappedBytes >= 0
  {
    PagesBound(m, Normal, 0);
    PagesBound(m, Returned, 0);
  }

  lemma NotBeyond(taken: int, st: Stats)
    requires st.freeBytes >= 0
    ensures taken / PAGE_SIZE - (st.unmappedBytes + st.freeBytes) / PAGE_SIZE
         <= taken / PAGE_SIZE - st.unmappedBytes / PAGE_SIZE
  {
  }

  /** `n` pages moved from the normal to the returned lists. */
  function Released(st: Stats, n: int): Stats {
    st.(freeBytes := st.freeBytes - n * PAGE_SIZE,
        unmappedBytes := st.unmappedBytes + n * PAGE_SIZE,
        committedBytes := st.committedBytes - n * PAGE_SIZE)
  }

  ghost predicate LargeFit(m: Spans, r: SpanRef, n: int) { Fit(m, r, n) && m[r].length >= MAX_PAGES }

  /** A span whose pages the system has taken back beats every committed one. */
  ghost predicate ReturnedWins(m: Spans, n: int) {
    exists b :: LargeFit(m, b, n) && m[b].location == Returned
      && forall r :: LargeFit(m, r, n) && m[r].location == Normal ==> Better(m[b], m[r])
  }

  ghost predicate NoLargeFit(m: Spans, n: int) { forall r :: !LargeFit(m, r, n) }

  /** A scan of both large lists sees every large free span. */
  lemma LargeLists(m: Spans, nl: Lists, rl: Lists)
    requires Filed(m, nl, rl, {})
    ensures forall r :: r in nl[MAX_PAGES] <==> r in m && m[r].location == Normal && ListIndex(m[r].length) == MAX_PAGES
    ensures forall r :: r in rl[MAX_PAGES] <==>
      r in m && m[r].location == Returned && ListIndex(m[r].length) == MAX_PAGES
  {
    assert ListHolds(m, nl[MAX_PAGES], MAX_PAGES, Normal, {});
    assert ListHolds(m, rl[MAX_PAGES], MAX_PAGES, Returned, {});
  }

  lemma FirstOnList(m: Spans, nl: Lists, rl: Lists, loc: Location, i: int)
    requires Filed(m, nl, rl, {}) && 0 <= i < MAX_PAGES && loc != InUse
    requires (if loc == Normal then nl else rl)[i] != []
    ensures var r := (if loc == Normal then nl else rl)[i][0]; r in m && m[r].location == loc && m[r].length == i
  {
    var lists := if loc == Normal then nl else rl;
    assert ListHolds(m, lists[i], i, loc, {});
    assert lists[i][0] in lists[i];
  }

  /** `b` is `best` or a span of the list that is long enough, and none of them is better. */
  ghost predicate ScanResult(m: Spans, list: seq<SpanRef>, n: int, best: Option<SpanRef>, b: Option<SpanRef>)
    requires (forall r :: r in list ==> r in m) && (best.Some? ==> best.value in m)
  {
    && (b.None? <==> best.None? && forall r :: r in list ==> m[r].length < n)
    && (b.Some? ==>
         && (b == best || (b.value in list && m[b.value].length >= n))
         && (forall r :: r in list && m[r].length >= n ==> !Better(m[r], m[b.value])))
    && (best.Some? ==> b.Some? && (b == best || Better(m[b.value], m[best.value])))
  }

  /** What the two scans say: nothing fits, a committed span is the best fit, or a returned
      one is. */
  lemma ScansDecide(m: Spans, pm: PageMap, nl: Lists, rl: Lists, n: int, first: Option<SpanRef>, best: Option<SpanRef>)
    requires Geometry(m, pm) && Filed(m, nl, rl, {})
    requires forall r :: r in nl[MAX_PAGES] || r in rl[MAX_PAGES] ==> r in m
    requires ScanResult(m, nl[MAX_PAGES], n, None, first) && (first.Some? ==> first.value in m)
    requires ScanResult(m, rl[MAX_PAGES], n, first, best)
    ensures best.None? <==> NoLargeFit(m, n)
    ensures best.Some? ==> BestLarge(m, best.value, n) && LargeFit(m, best.value, n)
    ensures best != first <==> ReturnedWins(m, n)
  {
    hide OnLists, Disjoint, Tagged, Registered, Backed;
    LargeLists(m, nl, rl);
    forall s | best.Some? && LargeFit(m, s, n) ensures !Better(m[s], m[best.value]) {
      assert s in nl[MAX_PAGES] || s in rl[MAX_PAGES];
    }
    if best != first {
      assert LargeFit(m, best.value, n) && m[best.value].location == Returned;
      forall r | LargeFit(m, r, n) && m[r].location == Normal ensures Better(m[best.value], m[r]) {
        assert r in nl[MAX_PAGES];
      }
    } else {
      assert first.Some? ==> LargeFit(m, first.value, n) && m[first.value].location == Normal;
      forall b | LargeFit(m, b, n) && m[b].location == Returned ensures first.Some? && !Better(m[b], m[first.value]) {
        assert b in rl[MAX_PAGES];
      }
    }
  }

  lemma LargeStillFree(m: Spans, m': Spans, r: SpanRef, n: int)
    requires Coarsens(m, m') && LargeFit(m, r, n)
    ensures !NoLargeFit(m', n)
  {
    var t :| t in m' && m'[t].Free() && Inside(m[r], m'[t]);
    assert LargeFit(m', t, n);
  }

  /** Lists that were empty still are. */
  ghost predicate StayEmpty(nl: Lists, nl': Lists) {
    |nl'| == |nl| && forall i :: 0 <= i < |nl| && nl[i] == [] ==> nl'[i] == []
  }

  lemma StillEmpty(nl: Lists, nl': Lists, i: int)
    requires StayEmpty(nl, nl') && 0 <= i < |nl| && nl[i] == []
    ensures i < |nl'| && nl'[i] == []
  {
  }

  lemma StayEmptyShorter(nl: Lists, nl': Lists, i: int, list: seq<SpanRef>)
    requires StayEmpty(nl, nl') && 0 <= i < |nl'| && nl'[i] != []
    ensures StayEmpty(nl, nl'[i := list])
  {
  }

  /** A fit of at least `s` pages. */
  ghost predicate FitFrom(m: Spans, n: int, s: int) { exists r :: Fit(m, r, n) && m[r].length >= s }

  lemma FitKept(m: Spans, m': Spans, n: int, s: int)
    requires Coarsens(m, m') && FitFrom(m, n, s)
    ensures FitFrom(m', n, s)
  {
    var r :| Fit(m, r, n) && m[r].length >= s;
    var t :| t in m' && m'[t].Free() && Inside(m[r], m'[t]);
    assert Fit(m', t, n);
  }

  /** With both lists for `s` empty, a fit from `s` pages on is one from `s + 1` on. */
  lemma FitBeyond(m: Spans, nl: Lists, rl: Lists, n: int, s: int)
    requires Filed(m, nl, rl, {}) && 0 <= s < MAX_PAGES && nl[s] == [] && rl[s] == [] && FitFrom(m, n, s)
    ensures FitFrom(m, n, s + 1)
  {
    assert ListHolds(m, nl[s], s, Normal, {}) && ListHolds(m, rl[s], s, Returned, {});
    var r :| Fit(m, r, n) && m[r].length >= s;
  }

  lemma FitIsLarge(m: Spans, n: int, s: int)
    requires FitFrom(m, n, s) && s >= MAX_PAGES
    ensures !NoLargeFit(m, n)
  {
    var r :| Fit(m, r, n) && m[r].length >= s;
    assert LargeFit(m, r, n);
  }

  lemma SomeFit(m: Spans, n: int)
    ensures !NoFit(m, n) ==> FitFrom(m, n, n)
  {
  }

  ghost predicate EmptyBetween(nl: Lists, rl: Lists, n: int, s: int) {
    forall i :: n <= i < s && 0 <= i < |nl| && 0 <= i < |rl| ==> nl[i] == [] && rl[i] == []
  }

  /** When no shorter list that could serve holds a span, the head of list `s` is a
      best fit. */
  lemma SmallBestFit(m: Spans, pm: PageMap, nl: Lists, rl: Lists, n: int, s: int, r: SpanRef)
    requires Geometry(m, pm) && Filed(m, nl, rl, {}) && 1 <= n <= s < MAX_PAGES && EmptyBetween(nl, rl, n, s)
    requires r in m && m[r].Free() && m[r].length == s && (m[r].location == Returned ==> nl[s] == [])
    ensures BestFit(m, r, n)
  {
    forall t | t in m && m[t].Free() && m[t].length >= n
      ensures m[r].length <= m[t].length
      ensures m[t].length == s && m[t].location == Normal ==> m[r].location == Normal
    {
      ListedAt(m, if m[t].location == Normal then nl else rl, m[t].location, t);
    }
  }

  lemma LargeBestFit(m: Spans, pm: PageMap, nl: Lists, rl: Lists, n: int, s: int)
    requires Geometry(m, pm) && Filed(m, nl, rl, {}) && 1 <= n && s >= MAX_PAGES && EmptyBetween(nl, rl, n, s)
    ensures forall t :: Fit(m, t, n) ==> LargeFit(m, t, n)
    ensures forall r :: BestLarge(m, r, n) ==> BestFit(m, r, n)
  {
    forall t | Fit(m, t, n) ensures LargeFit(m, t, n) {
      ListedAt(m, if m[t].location == Normal then nl else rl, m[t].location, t);
    }
    forall r | BestLarge(m, r, n) ensures BestFit(m, r, n) {
      forall t | t in m && m[t].Free() && m[t].length >= n
        ensures m[r].length <= m[t].length && (m[t].length == m[r].length ==> m[r].start <= m[t].start)
      {
        assert LargeFit(m, t, n);
        assert !Better(m[t], m[r]);
      }
    }
  }

  lemma GrownState(m: Spans, pm: PageMap, nl: Lists, rl: Lists, st: Stats, leaked: int, f: SpanRef, s: Span)
    requires Geometry(m, pm) && Filed(m, nl, rl, {}) && Coalesced(m, {}) && Books(m, m, st, leaked)
    requires f !in m && s.start >= 1 && s.length >= 1 && s.End() <= PAGE_LIMIT && ApartFromAll(m, s)
    requires s.location == InUse && s.sizeclass == 0
    ensures Geometry(m[f := s], Recorded(pm, s, f)) && Filed(m[f := s], nl, rl, {}) && Coalesced(m[f := s], {})
    ensures Books(m[f := s], m[f := s], Grown(st, s.length), leaked)
    ensures forall q :: Owns(m, q) ==> Owns(m[f := s], q)
  {
    var m' := m[f := s];
    GeometryGrown(m, pm, f, s);
    FiledFrame(m, m', nl, rl, {}, {});
    forall t, u | t in m' && u in m' && Meet(m'[t], m'[u]) ensures m'[t].location == InUse {
      assert t != f && u != f ==> Meet(m[t], m[u]);
    }
    assert m - {f} == m;
    PagesPut(m, Normal, f, s);
    PagesPut(m, Returned, f, s);
    PagesPut(m, InUse, f, s);
  }

  function Grown(st: Stats, n: int): Stats {
    st.(systemBytes := st.systemBytes + n * PAGE_SIZE, committedBytes := st.committedBytes + n * PAGE_SIZE)
  }

  /** How an attempt to grow the heap ended. */
  datatype Growth = NotTried | Grew | TooManyPages | OverLimit | SystemRefused | TagsRefused

  /** What growing keeps: in-use spans, free runs and owned pages. */
  ghost predicate Extends(m: Spans, m': Spans) {
    && SameInUse(m, m')
    && (forall r :: r in m && m[r].Free() ==> StillFree(m[r], m'))
    && (forall p :: Owns(m, p) ==> Owns(m', p))
  }

  lemma CoarseExtends(m: Spans, m': Spans)
    requires Coarsens(m, m')
    ensures Extends(m, m')
  {
  }

  lemma ExtendsTrans(m: Spans, m': Spans, m'': Spans)
    requires Extends(m, m') && Extends(m', m'')
    ensures Extends(m, m'')
  {
    forall r | r in m && m[r].Free() ensures StillFree(m[r], m'') {
      var t :| t in m' && m'[t].Free() && Inside(m[r], m'[t]);
      assert StillFree(m'[t], m'');
      var u :| u in m'' && m''[u].Free() && Inside(m'[t], m''[u]);
      assert Inside(m[r], m''[u]);
    }
  }

  /** Adding a run of pages as a span and freeing it again extends the heap and
      leaves a free span at least that long. */
  lemma GrownThenFreed(m: Spans, m': Spans, f: SpanRef, s: Span, k: int)
    requires f !in m && s.location == InUse && 1 <= k <= s.length && Coarsens(Relocated(m[f := s], f, Normal), m')
    requires forall q :: Owns(m, q) ==> Owns(m[f := s], q)
    ensures Extends(m, m') && exists t :: Fit(m', t, k)
  {
    var m1 := Relocated(m[f := s], f, Normal);
    assert StillFree(m1[f], m');
    var u :| u in m' && m'[u].Free() && Inside(m1[f], m'[u]);
    assert Fit(m', u, k);
    forall r | r in m && m[r].location == InUse ensures r in m' && m'[r] == m[r] { assert m1[r] == m[r]; }
    forall r | r in m' && m'[r].location == InUse ensures r in m && m[r] == m'[r] { assert r in m1 && m1[r] == m'[r]; }
    forall r | r in m && m[r].Free() ensures StillFree(m[r], m') { assert StillFree(m1[r], m'); }
    forall p | Owns(m, p) ensures Owns(m', p) {
      var t :| t in m && m[t].Covers(p);
      assert t in m1 && m1[t].Covers(p);
      assert Owns(m1, p);
    }
  }

  lemma ExtendsParts(m: Spans, m': Spans)
    requires Extends(m, m')
    ensures SameInUse(m, m') && forall p :: Owns(m, p) ==> Owns(m', p)
  {
  }

  lemma CarvedExtends(m0: Spans, m: Spans, m': Spans, r: SpanRef, n: int)
    requires Extends(m0, m) && CarvedFrom(m, m', r, n) && n >= 1
    ensures Grants(m0, m', r, n) && forall p :: Owns(m0, p) ==> Owns(m', p)
  {
    CarvedGrants(m0, m, m', r, n);
    var f :| f !in m && m' == CarveResult(m, r, n, f);
    var m1 := Relocated(m, r, InUse);
    forall p | Owns(m, p) ensures Owns(m1, p) {
      var t :| t in m && m[t].Covers(p);
      assert m1[t].Covers(p);
    }
    if m[r].length > n { CutPages(m1, r, n, f, m[r].location); }
  }

  lemma SplitState(m: Spans, pm: PageMap, nl: Lists, rl: Lists, st: Stats, leaked: int, r: SpanRef, n: int, f: SpanRef)
    requires Geometry(m, pm) && Filed(m, nl, rl, {}) && Coalesced(m, {}) && Books(m, m, st, leaked)
    requires r in m && m[r].location == InUse && f !in m
    ensures var m' := Cut(m, r, n, f, InUse);
      Filed(m', nl, rl, {}) && Coalesced(m', {}) && Books(m', m', st, leaked)
  {
    var m' := Cut(m, r, n, f, InUse);
    FiledFrame(m, m', nl, rl, {}, {});
    forall t, u | t in m' && u in m' && Meet(m'[t], m'[u]) ensures m'[t].location == InUse {
      assert t in m && u in m && t != r && u != r ==> Meet(m[t], m[u]);
    }
    PagesCut(m, Normal, r, n, f, InUse);
    PagesCut(m, Returned, r, n, f, InUse);
    PagesCut(m, InUse, r, n, f, InUse);
  }

  /** `pm'` is `pm` with the pages in [lo, hi) tagged `r`. */
  ghost predicate TagsRange(pm: PageMap, pm': PageMap, lo: int, hi: int, r: SpanRef) {
    forall p :: if lo <= p < hi then PageIs(pm', p, r) else (p in pm' <==> p in pm) && (p in pm ==> pm'[p] == pm[p])
  }

  lemma BothEnds(m: Spans, pm: PageMap, r: SpanRef)
    requires Geometry(m, pm) && r in m
    ensures m[r].length >= 1 && PageIs(pm, m[r].start, r) && PageIs(pm, m[r].End() - 1, r)
  {
    assert TagsAt(m, pm, r);
  }

  lemma RegisteredState(m: Spans, pm: PageMap, pm': PageMap, nl: Lists, rl: Lists, st: Stats, leaked: int,
                        r: SpanRef, sc: nat, i: int)
    requires Geometry(m, pm) && Filed(m, nl, rl, {}) && Coalesced(m, {}) && Books(m, m, st, leaked)
    requires r in m && m[r].location == InUse
    requires TagsRange(pm, pm', m[r].start, m[r].start + i, r) && m[r].length - 1 <= i <= m[r].length
    ensures var m' := m[r := m[r].(sizeclass := sc)];
      Geometry(m', pm') && Filed(m', nl, rl, {}) && Coalesced(m', {}) && Books(m', m', st, leaked) && SamePages(m, m')
  {
    var m' := m[r := m[r].(sizeclass := sc)];
    FiledFrame(m, m', nl, rl, {}, {});
    forall t, u | t in m' && u in m' && Meet(m'[t], m'[u]) ensures m'[t].location == InUse {
      assert Meet(m[t], m[u]);
    }
    RegisteredGeometry(m, pm, pm', r, sc, i);
    forall loc ensures PagesAt(m', loc) == PagesAt(m, loc) { PagesPut(m, loc, r, m'[r]); PagesDrop(m, loc, r); }
  }

  lemma RegisteredTags(m: Spans, pm: PageMap, pm': PageMap, r: SpanRef, sc: nat, i: int)
    requires Sized(m) && Disjoint(m) && Tagged(m, pm) && Registered(m, pm) && r in m
    requires TagsRange(pm, pm', m[r].start, m[r].start + i, r) && m[r].length - 1 <= i <= m[r].length
    ensures var m' := m[r := m[r].(sizeclass := sc)]; Tagged(m', pm') && Registered(m', pm')
  {
    var m' := m[r := m[r].(sizeclass := sc)];
    assert TagsAt(m, pm, r);
    forall t | t in m' ensures TagsAt(m', pm', t) {
      assert TagsAt(m, pm, t);
      assert t != r ==> Apart(m[r], m[t]);
    }
    forall t, p | t in m' && m'[t].sizeclass != 0 && m'[t].Covers(p) ensures PageIs(pm', p, t) {
      if t != r { assert PageIs(pm, p, t) && Apart(m[r], m[t]); }
    }
  }

  lemma RegisteredPages(m: Spans, pm: PageMap, pm': PageMap, r: SpanRef, sc: nat, i: int)
    requires Backed(m, pm) && r in m && TagsRange(pm, pm', m[r].start, m[r].start + i, r) && i <= m[r].length
    ensures var m' := m[r := m[r].(sizeclass := sc)]; SamePages(m, m') && Backed(m', pm')
  {
    var m' := m[r := m[r].(sizeclass := sc)];
    forall p ensures Owns(m, p) <==> Owns(m', p) {
      if Owns(m, p) { var t :| t in m && m[t].Covers(p); assert m'[t].Covers(p); }
      if Owns(m', p) { var t :| t in m' && m'[t].Covers(p); assert m[t].Covers(p); }
    }
    forall p | p in pm' ensures Owns(m', p) {
      assert p in pm || m[r].Covers(p);
      assert Owns(m, p);
    }
  }

  lemma RegisteredGeometry(m: Spans, pm: PageMap, pm': PageMap, r: SpanRef, sc: nat, i: int)
    requires Geometry(m, pm) && r in m && m[r].location == InUse
    requires TagsRange(pm, pm', m[r].start, m[r].start + i, r) && m[r].length - 1 <= i <= m[r].length
    ensures var m' := m[r := m[r].(sizeclass := sc)]; Geometry(m', pm') && SamePages(m, m')
  {
    var m' := m[r := m[r].(sizeclass := sc)];
    forall t, u | t in m' && u in m' && t != u ensures Apart(m'[t], m'[u]) { assert Apart(m[t], m[u]); }
    RegisteredTags(m, pm, pm', r, sc, i);
    RegisteredPages(m, pm, pm', r, sc, i);
  }

  class PageHeap {
    var spans: Spans
    var pagemap: PageMap
    // Index MAX_PAGES is the list of large spans.
    var normal: Lists
    var returned: Lists
    var stats: Stats
    var releaseIndex: int
    // Bytes taken from the system by anyone, and the configured limit.
    var systemTaken: int
    var limitMb: nat
    // Pages counted but never recorded, and how often the system declined pages.
    ghost var leaked: nat
    ghost var refusals: nat

    ghost predicate Sane()
      reads this
    {
      && 0 <= releaseIndex <= MAX_PAGES + 1
      && stats.systemBytes <= systemTaken
      && stats.systemBytes < INT_LIMIT * PAGE_SIZE
    }

    /** Every reachable heap: spans, tags, lists, maximal coalescing and statistics
        agree. */
    ghost predicate Valid()
      reads this
    {
      && Geometry(spans, pagemap)
      && |normal| == |returned| == MAX_PAGES + 1
      && Filed(spans, normal, returned, {})
      && Coalesced(spans, {})
      && Books(spans, spans, stats, leaked)
      && Sane()
    }

    /** As `Valid`, but free span `r` is on no list, in no total, and may still
        touch neighbours it should be merged with. */
    ghost predicate Floating(r: SpanRef)
      reads this
    {
      && Geometry(spans, pagemap)
      && r in spans && spans[r].Free()
      && |normal| == |returned| == MAX_PAGES + 1
      && Filed(spans, normal, returned, {r})
      && Coalesced(spans, {r})
      && Books(spans, spans - {r}, stats, leaked)
      && Sane()
    }

    constructor (limitMb: nat)
      ensures Valid() && spans == map[] && stats == Stats(0, 0, 0, 0) && this.limitMb == limitMb && leaked == 0
    {
      spans, pagemap := map[], map[];
      normal, returned := seq(MAX_PAGES + 1, i => []), seq(MAX_PAGES + 1, i => []);
      stats := Stats(0, 0, 0, 0);
      releaseIndex := MAX_PAGES;
      systemTaken := 0;
      this.limitMb := limitMb;
      leaked, refusals := 0, 0;
    }

    method RemoveFromFreeList(r: SpanRef)
      requires |normal| == |returned| == MAX_PAGES + 1 && r in spans && spans[r].Free()
      modifies this`normal, this`returned, this`stats
      ensures normal == Unfile(spans, old(normal), Normal, r)
      ensures returned == Unfile(spans, old(returned), Returned, r)
      ensures stats == Debit(old(stats), spans[r])
    {
      if spans[r].location == Normal {
        stats := stats.(freeBytes := stats.freeBytes - spans[r].length * PAGE_SIZE);
        normal := Unlinked(spans, normal, r);
      } else {
        stats := stats.(unmappedBytes := stats.unmappedBytes - spans[r].length * PAGE_SIZE);
        returned := Unlinked(spans, returned, r);
      }
    }

    method PrependToFreeList(r: SpanRef)
      requires |normal| == |returned| == MAX_PAGES + 1 && r in spans && spans[r].Free()
      modifies this`normal, this`returned, this`stats
      ensures normal == File(spans, old(normal), Normal, r)
      ensures returned == File(spans, old(returned), Returned, r)
      ensures stats == Credit(old(stats), spans[r])
    {
      if spans[r].location == Normal {
        stats := stats.(freeBytes := stats.freeBytes + spans[r].length * PAGE_SIZE);
        normal := Linked(spans, normal, r);
      } else {
        stats := stats.(unmappedBytes := stats.unmappedBytes + spans[r].length * PAGE_SIZE);
        returned := Linked(spans, returned, r);
      }
    }

    /** Merge neighbour `q` into floating span `r`. */
    method Absorb(r: SpanRef, q: SpanRef)
      requires Floating(r) && q in spans && q != r
      requires spans[q].location == spans[r].location && Touch(spans[r], spans[q])
      modifies this`spans, this`pagemap, this`normal, this`returned, this`stats
      ensures Floating(r) && spans == Absorbed(old(spans), r, q)
      ensures stats == Debit(old(stats), old(spans)[q])
      ensures spans[r].location == Returned ==> normal == old(normal)
    {
      hide Geometry, OnLists, Coalesced, Books, SamePages, PagesAt;
      FiledAbsorbed(spans, normal, returned, r, q);
      BooksAbsorbed(spans, stats, leaked, r, q);
      GeometryAbsorbed(spans, pagemap, r, q);
      CoalescedAbsorbed(spans, pagemap, r, q);
      RemoveFromFreeList(q);
      pagemap := pagemap[AbsorbedTag(spans, r, q) := r];
      spans := Absorbed(spans, r, q);
    }

    /** Merge the preceding span into `r` if both are at one location. */
    method MergeBefore(r: SpanRef)
      requires Floating(r)
      modifies this`spans, this`pagemap, this`normal, this`returned, this`stats
      ensures Floating(r) && NothingBefore(spans, r)
      ensures Coarsens(old(spans), spans) && SameTotals(old(spans), spans)
      ensures Inside(old(spans)[r], spans[r]) && spans[r].location == old(spans)[r].location
      ensures spans[r].End() == old(spans)[r].End()
      ensures stats.systemBytes == old(stats).systemBytes && stats.committedBytes == old(stats).committedBytes
      ensures old(spans)[r].location == Returned ==> normal == old(normal)
    {
      hide Geometry, Filed, Coalesced, Books, Coarsens, SameTotals, NothingBefore, NothingAfter;
      MergeNone(spans);
      var p := spans[r].start;
      if p - 1 in pagemap && (TagBefore(spans, pagemap, r); spans[pagemap[p - 1]].location == spans[r].location) {
        MergeOne(spans, pagemap, r, pagemap[p - 1]);
        Absorb(r, pagemap[p - 1]);
      } else {
        EdgeBefore(spans, pagemap, r);
      }
    }

    /** Merge the following span into `r` if both are at one location. */
    method MergeAfter(r: SpanRef)
      requires Floating(r) && NothingBefore(spans, r)
      modifies this`spans, this`pagemap, this`normal, this`returned, this`stats
      ensures Floating(r) && NothingBefore(spans, r) && NothingAfter(spans, r)
      ensures Coarsens(old(spans), spans) && SameTotals(old(spans), spans)
      ensures Inside(old(spans)[r], spans[r]) && spans[r].location == old(spans)[r].location
      ensures stats.systemBytes == old(stats).systemBytes && stats.committedBytes == old(stats).committedBytes
      ensures old(spans)[r].location == Returned ==> normal == old(normal)
    {
      hide Geometry, Filed, Coalesced, Books, Coarsens, SameTotals, NothingBefore, NothingAfter;
      MergeNone(spans);
      var e := spans[r].End();
      if e in pagemap && (TagAfter(spans, pagemap, r); spans[pagemap[e]].location == spans[r].location) {
        MergeOne(spans, pagemap, r, pagemap[e]);
        Absorb(r, pagemap[e]);
      } else {
        EdgeAfter(spans, pagemap, r);
      }
    }

    method MergeIntoFreeList(r: SpanRef)
      requires Floating(r)
      modifies this`spans, this`pagemap, this`normal, this`returned, this`stats
      ensures Valid() && Coarsens(old(spans), spans)
      ensures r in spans && Inside(old(spans)[r], spans[r]) && spans[r].location == old(spans)[r].location
      ensures SameTotals(old(spans), spans)
      ensures stats.systemBytes == old(stats).systemBytes && stats.committedBytes == old(stats).committedBytes
      ensures old(spans)[r].location == Returned ==> normal == old(normal)
    {
      hide Geometry, Filed, Coalesced, Books, Coarsens, SameTotals, NothingBefore, NothingAfter;
      MergeBefore(r);
      ghost var m := spans;
      MergeAfter(r);
      MergeTwice(old(spans), m, spans);
      CoalescedWith(spans, pagemap, r);
      FiledIn(spans, normal, returned, r);
      BooksIn(spans, stats, leaked, r);
      PrependToFreeList(r);
    }

    /** The operating system may decline to take pages back. */
    method SystemRelease() returns (ok: bool)
      modifies this`refusals
      ensures refusals == old(refusals) + (if ok then 0 else 1)
    {
      ok := *;
      if !ok { refusals := refusals + 1; }
    }

    method ReleaseLastNormalSpan(i: int) returns (n: int)
      requires Valid() && 0 <= i <= MAX_PAGES && normal[i] != []
      modifies this`spans, this`pagemap, this`normal, this`returned, this`stats, this`refusals
      ensures Valid() && Coarsens(old(spans), spans) && n >= 0
      ensures n == 0 ==> unchanged(`spans) && unchanged(`pagemap) && unchanged(`normal) && unchanged(`returned)
      ensures refusals == old(refusals) + (if n == 0 then 1 else 0)
      ensures n > 0 ==> normal == old(normal)[i := old(normal)[i][..|old(normal)[i]| - 1]]
      ensures stats == Released(old(stats), n)
    {
      hide Geometry, OnLists, Coalesced, SamePages, PagesAt, Coarsens;
      LastOnList(spans, pagemap, normal, returned, i);
      CoarsensRefl(spans);
      var s := normal[i][|normal[i]| - 1];
      var ok := SystemRelease();
      if !ok { return 0; }
      ReleasedFloats(spans, pagemap, normal, returned, stats, leaked, s);
      ghost var m := spans;
      stats := stats.(committedBytes := stats.committedBytes - spans[s].length * PAGE_SIZE);
      RemoveFromFreeList(s);
      n := spans[s].length;
      spans := Relocated(spans, s, Returned);
      ghost var m1 := spans;
      MergeIntoFreeList(s);
      CoarsensTrans(m, m1, spans);
    }

    /** The system declined pages since it had done so `before` times. */
    ghost predicate Refused(before: nat)
      reads this`refusals
    {
      refusals > before
    }

    method ReleaseAtLeastNPages(num: int) returns (released: int)
      requires Valid()
      modifies this`spans, this`pagemap, this`normal, this`returned, this`stats, this`releaseIndex, this`refusals
      ensures Valid() && Coarsens(old(spans), spans) && released >= 0
      ensures stats == Released(old(stats), released)
      ensures released >= num || Refused(old(refusals)) || stats.freeBytes == 0
      ensures refusals >= old(refusals) && StayEmpty(old(normal), normal)
    {
      hide Geometry, OnLists, Coalesced, SamePages, PagesAt, Coarsens, Books;
      released := 0;
      assert StayEmpty(normal, normal);
      hide StayEmpty;
      CoarsensRefl(spans);
      while released < num && stats.freeBytes > 0
        invariant Valid() && Coarsens(old(spans), spans) && released >= 0 && refusals == old(refusals)
        invariant stats == Released(old(stats), released) && StayEmpty(old(normal), normal)
        decreases stats.freeBytes
      {
        ghost var before, first := stats.freeBytes, Wrap(releaseIndex);
        var i := 0;
        while i < MAX_PAGES + 1 && released < num
          invariant 0 <= i <= MAX_PAGES + 1 && refusals == old(refusals)
          invariant Valid() && Coarsens(old(spans), spans) && released >= 0 && StayEmpty(old(normal), normal)
          invariant stats == Released(old(stats), released) && stats.freeBytes <= before
          invariant Wrap(releaseIndex) == Wrap(first + i) || i == MAX_PAGES + 1
          invariant released < num || stats.freeBytes < before
          invariant stats.freeBytes < before || EmptyFrom(normal, first, i)
        {
          if releaseIndex > MAX_PAGES { releaseIndex := 0; }
          if normal[releaseIndex] != [] {
            ghost var m, nl := spans, normal;
            var n := ReleaseLastNormalSpan(releaseIndex);
            StayEmptyShorter(old(normal), nl, releaseIndex, normal[releaseIndex]);
            CoarsensTrans(old(spans), m, spans);
            if n == 0 { return; }
            released := released + n;
          }
          i, releaseIndex := i + 1, releaseIndex + 1;
        }
        if EmptyFrom(normal, first, MAX_PAGES + 1) { AllEmpty(spans, normal, returned, stats, leaked, first); }
      }
      FreeNonNegative(spans, pagemap, stats, leaked);
    }

    // ------------------------------------------------------------ heap limit

    function Limit(): int
      reads this`limitMb
    {
      limitMb * 1024 * 1024 / PAGE_SIZE
    }

    /** Pages taken from the system and not given back. */
    function Taken(): int
      reads this
    {
      systemTaken / PAGE_SIZE - stats.unmappedBytes / PAGE_SIZE
    }

    predicate WithinLimit(n: int)
      reads this
    {
      Limit() == 0 || Taken() + n <= Limit()
    }

    /** With `n` more pages the limit would be exceeded even if every free page went
        back to the system. */
    predicate BeyondLimit(n: int)
      reads this
    {
      Limit() != 0 && systemTaken / PAGE_SIZE - (stats.unmappedBytes + stats.freeBytes) / PAGE_SIZE + n > Limit()
    }

    /** Nothing is left to release, and there is no room for `n` more pages. */
    ghost predicate Exhausted(n: int)
      reads this
    {
      !WithinLimit(n) && stats.freeBytes == 0
    }

    method EnsureLimit(n: int, withRelease: bool) returns (ok: bool)
      requires Valid()
      modifies this`spans, this`pagemap, this`normal, this`returned, this`stats, this`releaseIndex, this`refusals
      ensures Valid() && Coarsens(old(spans), spans)
      ensures ok <==> WithinLimit(n)
      ensures !withRelease || old(WithinLimit(n)) ==> unchanged(this)
      ensures stats.systemBytes == old(stats).systemBytes
      ensures stats.freeBytes + stats.unmappedBytes == old(stats).freeBytes + old(stats).unmappedBytes
      ensures withRelease && !ok ==> Refused(old(refusals)) || Exhausted(n)
      ensures old(Exhausted(n)) ==> Exhausted(n)
      ensures refusals >= old(refusals) && StayEmpty(old(normal), normal)
    {
      hide Geometry, Filed, Coalesced, SamePages, PagesAt, Coarsens;
      CoarsensRefl(spans);
      FreeNonNegative(spans, pagemap, stats, leaked);
      var limit := limitMb * 1024 * 1024 / PAGE_SIZE;
      if limit == 0 { return true; }
      var taken := systemTaken / PAGE_SIZE - stats.unmappedBytes / PAGE_SIZE;
      if taken + n > limit && withRelease {
        var released := ReleaseAtLeastNPages(taken + n - limit);
        FreeNonNegative(spans, pagemap, stats, leaked);
        taken := taken - released;
      }
      ok := taken + n <= limit;
    }

    // ------------------------------------------------------------ allocation

    /** A record key that is not in use; its memory may raise `systemTaken`. */
    method NewSpan() returns (f: SpanRef)
      modifies this`systemTaken
      ensures f !in spans && systemTaken >= old(systemTaken)
    {
      var chunk: int := *;
      if chunk > 0 { systemTaken := systemTaken + chunk; }
      ghost var g := UnusedRef(spans.Keys);
      assert g !in spans;
      f :| f !in spans;
    }

    method Carve(r: SpanRef, n: int)
      requires Valid() && Fit(spans, r, n) && n >= 1
      modifies this`spans, this`pagemap, this`normal, this`returned, this`stats, this`systemTaken
      ensures Valid() && CarvedFrom(old(spans), spans, r, n)
      ensures stats == CarvedStats(old(stats), old(spans)[r].location, n) && systemTaken >= old(systemTaken)
    {
      hide Geometry, Filed, Coalesced, SamePages, PagesAt, Books, CutTags, File;
      ghost var m := spans;
      var oldLocation := spans[r].location;
      SpanFitsInt(spans, pagemap, stats, leaked, r);
      RemoveFromFreeList(r);
      spans := Relocated(spans, r, InUse);
      var extra := ToInt32(spans[r].length - n);
      ghost var g := UnusedRef(m.Keys);
      if extra > 0 {
        var f := NewSpan();
        g := f;
        CarvedGeometry(m, pagemap, r, n, f);
        pagemap := CutTags(spans, pagemap, r, n, f, oldLocation);
        spans := Cut(spans, r, n, f, oldLocation);
        PrependToFreeList(f);
      } else {
        CarvedGeometry(m, pagemap, r, n, g);
      }
      if oldLocation == Returned {
        stats := stats.(committedBytes := stats.committedBytes + n * PAGE_SIZE);
      }
      assert spans == CarveResult(m, r, n, g);
      FiledCarved(m, old(normal), old(returned), r, n, g);
      CarvedCoalesced(m, old(pagemap), r, n, g);
      BooksCarved(m, old(stats), leaked, r, n, g);
    }

    /** One of the two scans of AllocLarge: address-ordered best fit over a list. */
    method ScanLarge(list: seq<SpanRef>, n: int, best: Option<SpanRef>) returns (b: Option<SpanRef>)
      requires (forall r :: r in list ==> r in spans) && (best.Some? ==> best.value in spans)
      ensures ScanResult(spans, list, n, best, b)
    {
      b := best;
      var i := 0;
      while i < |list|
        invariant 0 <= i <= |list|
        invariant b.None? <==> best.None? && forall r :: r in list[..i] ==> spans[r].length < n
        invariant b.Some? ==> b == best || (b.value in list[..i] && spans[b.value].length >= n)
        invariant b.Some? ==> forall r :: r in list[..i] && spans[r].length >= n ==> !Better(spans[r], spans[b.value])
        invariant best.Some? ==> b.Some? && (b == best || Better(spans[b.value], spans[best.value]))
      {
        var span := list[i];
        assert list[..i + 1] == list[..i] + [span];
        if spans[span].length >= n {
          if b.None? || spans[span].length < spans[b.value].length
            || (spans[span].length == spans[b.value].length && spans[span].start < spans[b.value].start)
          {
            b := Some(span);
          }
        }
        i := i + 1;
      }
      assert list[..i] == list;
    }

    method AllocLarge(n: int)
      returns (res: Option<SpanRef>, ghost before: Spans, ghost entries: nat)
      requires Valid() && n >= 1
      modifies this`spans, this`pagemap, this`normal, this`returned, this`stats, this`releaseIndex, this`systemTaken,
        this`refusals
      ensures refusals >= old(refusals)
      ensures Valid() && Coarsens(old(spans), before) && stats.systemBytes == old(stats).systemBytes
      ensures old(WithinLimit(n)) ==> before == old(spans)
      ensures res.Some? ==> BestLarge(before, res.value, n) && CarvedFrom(before, spans, res.value, n)
      ensures res.None? ==> spans == before
      ensures res.None? && old(WithinLimit(n)) ==> unchanged(this)
      // Unless the system refuses a release, it fails exactly when nothing fits, or when
      // a returned span is the best fit and the limit cannot be met.  In the latter case
      // committed spans that would do are passed over.
      ensures !Refused(old(refusals)) ==>
        (res.None? <==> NoLargeFit(old(spans), n) || (ReturnedWins(old(spans), n) && old(BeyondLimit(n))))
      ensures ReturnedWins(old(spans), n) && old(BeyondLimit(n)) ==> res.None?
      ensures NoLargeFit(old(spans), n) ==> res.None? && unchanged(this)
      ensures res.None? && !NoLargeFit(old(spans), n) ==>
        !WithinLimit(n) && (Refused(old(refusals)) || stats.freeBytes == 0)
      ensures entries <= if old(WithinLimit(n)) then 1 else 2
      decreases if WithinLimit(n) then 0 else 1
    {
      hide Geometry, OnLists, Coalesced, SamePages, PagesAt, Coarsens, CarvedFrom, BestLarge, NoLargeFit, ReturnedWins,
        ScanResult, LargeFit, Books;
      entries := 1;
      CoarsensRefl(spans);
      LargeLists(spans, normal, returned);
      FreeNonNegative(spans, pagemap, stats, leaked);
      NotBeyond(systemTaken, stats);
      var bestNormal := ScanLarge(normal[MAX_PAGES], n, None);
      var best := ScanLarge(returned[MAX_PAGES], n, bestNormal);
      ScansDecide(spans, pagemap, normal, returned, n, bestNormal, best);
      before := spans;
      if best == bestNormal {
        if best.Some? { Carve(best.value, n); }
        return best, before, entries;
      }
      var ok := EnsureLimit(n, false);
      if ok {
        Carve(best.value, n);
        return best, before, entries;
      }
      ok := EnsureLimit(n, true);
      before := spans;
      FreeNonNegative(spans, pagemap, stats, leaked);
      NotBeyond(systemTaken, stats);
      if ok {
        LargeStillFree(old(spans), spans, best.value, n);
        res, before, entries := AllocLarge(n);
        entries := entries + 1;
        return;
      }
      res := None;
    }

    method SearchFreeAndLargeLists(n: int) returns (res: Option<SpanRef>, ghost before: Spans)
      requires Valid() && n >= 1
      modifies this`spans, this`pagemap, this`normal, this`returned, this`stats, this`releaseIndex, this`systemTaken,
        this`refusals
      ensures Valid() && Coarsens(old(spans), before) && stats.systemBytes == old(stats).systemBytes
      ensures res.Some? ==> CarvedFrom(before, spans, res.value, n)
      ensures res.None? ==> spans == before
      // With no limit: address-ordered best fit, failing only when nothing fits.
      ensures Limit() == 0 ==> before == old(spans)
      ensures Limit() == 0 && res.Some? ==> BestFit(before, res.value, n)
      ensures Limit() == 0 && res.None? ==> NoFit(spans, n) && unchanged(this)
      // With a limit: a fit is passed over only if even releasing what is free does not
      // make room, or the system refuses a release.
      ensures res.None? && !NoFit(old(spans), n) && !Refused(old(refusals)) ==> Exhausted(n)
      ensures refusals >= old(refusals)
    {
      hide Geometry, Filed, Coalesced, SamePages, PagesAt, Coarsens, CarvedFrom, BestFit, BestLarge, Books, FitFrom;
      hide NoFit, NoLargeFit, ReturnedWins, Released, StayEmpty, PageHeap.Limit, PageHeap.Taken, PageHeap.BeyondLimit;
      CoarsensRefl(spans);
      SomeFit(spans, n);
      var s := n;
      while s < MAX_PAGES
        invariant n <= s && (n <= MAX_PAGES ==> s <= MAX_PAGES)
        invariant Valid() && Coarsens(old(spans), spans) && stats.systemBytes == old(stats).systemBytes
        invariant refusals >= old(refusals)
        invariant Limit() == 0 ==> unchanged(this) && EmptyBetween(normal, returned, n, s)
        invariant NoFit(old(spans), n) || Refused(old(refusals)) || Exhausted(n) || FitFrom(spans, n, s)
      {
        before := spans;
        if normal[s] != [] {
          var r := normal[s][0];
          FirstOnList(spans, normal, returned, Normal, s);
          if Limit() == 0 { SmallBestFit(spans, pagemap, normal, returned, n, s, r); }
          Carve(r, n);
          return Some(r), before;
        }
        if returned[s] != [] {
          ghost var nl := normal;
          var ok := EnsureLimit(n, true);
          StillEmpty(nl, normal, s);
          if FitFrom(before, n, s) { FitKept(before, spans, n, s); }
          CoarsensTrans(old(spans), before, spans);
          before := spans;
          if ok && returned[s] != [] {
            var r := returned[s][0];
            FirstOnList(spans, normal, returned, Returned, s);
            if Limit() == 0 { SmallBestFit(spans, pagemap, normal, returned, n, s, r); }
            Carve(r, n);
            return Some(r), before;
          }
        }
        if FitFrom(spans, n, s) && returned[s] == [] { FitBeyond(spans, normal, returned, n, s); }
        s := s + 1;
      }
      ghost var m := spans;
      if FitFrom(spans, n, s) { FitIsLarge(spans, n, s); }
      if Limit() == 0 { LargeBestFit(spans, pagemap, normal, returned, n, s); }
      ghost var entries;
      res, before, entries := AllocLarge(n);
      CoarsensTrans(old(spans), m, before);
    }

    // ----------------------------------------------------- client operations

    method Delete(r: SpanRef)
      requires Valid() && r in spans && spans[r].location == InUse
      modifies this`spans, this`pagemap, this`normal, this`returned, this`stats, this`releaseIndex, this`refusals
      ensures Valid() && Coarsens(Relocated(old(spans), r, Normal), spans)
      ensures stats.systemBytes == old(stats).systemBytes && refusals >= old(refusals)
    {
      hide Geometry, OnLists, Coalesced, SamePages, PagesAt, Coarsens, Books;
      FreedFloats(spans, pagemap, normal, returned, stats, leaked, r);
      spans := Relocated(spans, r, Normal);
      ghost var m1 := spans;
      MergeIntoFreeList(r);
      ghost var m2 := spans;
      // Whether this is a time to scavenge depends on a floating-point rate.
      if * {
        var _ := ReleaseAtLeastNPages(1);
        CoarsensTrans(m1, m2, spans);
      }
    }

    method SystemAlloc(bytes: int) returns (ok: bool, page: int, actual: int)
      modifies this`systemTaken
      ensures !ok ==> unchanged(this)
      ensures ok ==> actual >= bytes && page >= 1 && page + actual / PAGE_SIZE <= PAGE_LIMIT
      ensures ok ==> ApartFromAll(spans, Span(page, actual / PAGE_SIZE, InUse, 0))
      ensures ok ==> stats.systemBytes + actual < INT_LIMIT * PAGE_SIZE && systemTaken == old(systemTaken) + actual
    {
      ok, page, actual := *, *, *;
      ok := ok && actual >= bytes && page >= 1 && page + actual / PAGE_SIZE <= PAGE_LIMIT
        && stats.systemBytes + actual < INT_LIMIT * PAGE_SIZE
        && ApartFromAll(spans, Span(page, actual / PAGE_SIZE, InUse, 0));
      if ok { systemTaken := systemTaken + actual; }
    }

    /** One attempt of GrowHeap to get `ask` pages. */
    method Acquire(ask: int) returns (got: bool, page: int, actual: int, ghost why: Growth)
      requires Valid() && ask >= 1
      modifies this`spans, this`pagemap, this`normal, this`returned, this`stats, this`releaseIndex, this`systemTaken,
        this`refusals
      ensures Valid() && Coarsens(old(spans), spans)
      ensures !got ==> why == SystemRefused || (why == OverLimit && Limit() != 0)
      ensures !got && why == OverLimit ==> !WithinLimit(ask) && (Refused(old(refusals)) || stats.freeBytes == 0)
      ensures refusals >= old(refusals)
      ensures got ==> actual >= ask * PAGE_SIZE && page >= 1 && page + actual / PAGE_SIZE <= PAGE_LIMIT
      ensures got ==> stats.systemBytes + actual <= systemTaken && stats.systemBytes + actual < INT_LIMIT * PAGE_SIZE
      ensures got ==> ApartFromAll(spans, Span(page, actual / PAGE_SIZE, InUse, 0))
    {
      hide Geometry, Filed, Coalesced, SamePages, PagesAt, Coarsens, ApartFromAll, Books;
      got, page, actual, why := false, 0, 0, OverLimit;
      var fits := EnsureLimit(ask, true);
      if fits {
        why := SystemRefused;
        got, page, actual := SystemAlloc(ask * PAGE_SIZE);
      }
    }

    method GrowHeap(n: int) returns (ok: bool, ghost growth: Growth)
      requires Valid() && n >= 1
      modifies this
      ensures Valid() && Extends(old(spans), spans) && limitMb == old(limitMb) && refusals >= old(refusals)
      ensures ok ==> exists r :: Fit(spans, r, n)
      ensures growth != NotTried && (ok <==> growth == Grew)
      ensures growth == OverLimit ==> Limit() != 0
      ensures growth == TooManyPages ==> n > MAX_VALID_PAGES
      ensures leaked >= old(leaked) && (leaked > old(leaked) <==> growth == TagsRefused)
      ensures growth == OverLimit ==> !WithinLimit(n) && (Refused(old(refusals)) || stats.freeBytes == 0)
    {
      hide Geometry, Filed, Coalesced, SamePages, PagesAt, Coarsens, Extends, ApartFromAll, Owns, Fit, Books;
      CoarsensRefl(spans);
      CoarseExtends(spans, spans);
      if n > MAX_VALID_PAGES { return false, TooManyPages; }
      var ask := if n > MIN_SYSTEM_ALLOC then n else MIN_SYSTEM_ALLOC;
      var got, page, actual;
      got, page, actual, growth := Acquire(ask);
      ghost var m := spans;
      if !got && n < ask {
        ask := n;
        got, page, actual, growth := Acquire(ask);
        CoarsensTrans(old(spans), m, spans);
        m := spans;
      }
      CoarseExtends(old(spans), m);
      if !got { return false, growth; }
      ask := actual / PAGE_SIZE;
      // Whether the page map has or gets room for the run's tags.
      var ensured := *;
      RecordRun(page, ask, ensured, n);
      ExtendsTrans(old(spans), m, spans);
      ok, growth := ensured, if ensured then Grew else TagsRefused;
    }

    /** Count a run the system has given and, if the page map has room for its tags, make it a
        free span; otherwise its pages belong to no span. */
    method RecordRun(page: int, n: int, ensured: bool, ghost k: int)
      requires Valid() && page >= 1 && 1 <= k <= n && page + n <= PAGE_LIMIT
      requires ApartFromAll(spans, Span(page, n, InUse, 0))
      requires stats.systemBytes + n * PAGE_SIZE <= systemTaken
      requires stats.systemBytes + n * PAGE_SIZE < INT_LIMIT * PAGE_SIZE
      modifies this`spans, this`pagemap, this`normal, this`returned, this`stats, this`releaseIndex, this`systemTaken,
        this`refusals, this`leaked
      ensures Valid() && Extends(old(spans), spans) && refusals >= old(refusals)
      ensures ensured ==> leaked == old(leaked) && exists r :: Fit(spans, r, k)
      ensures !ensured ==> leaked == old(leaked) + n && stats == Grown(old(stats), n) && unchanged(`spans)
    {
      hide Geometry, Filed, Coalesced, SamePages, PagesAt, Coarsens, Extends, ApartFromAll, Owns, Fit;
      CoarsensRefl(spans);
      CoarseExtends(spans, spans);
      ghost var before := stats;
      stats := Grown(stats, n);
      if ensured {
        AdoptRun(page, n, before, k);
      } else {
        leaked := leaked + n;
      }
    }

    /** Pretend the run is allocated, then free it so that it coalesces. */
    method AdoptRun(page: int, n: int, ghost before: Stats, ghost k: int)
      requires Geometry(spans, pagemap) && Filed(spans, normal, returned, {}) && Coalesced(spans, {})
      requires Books(spans, spans, before, leaked) && stats == Grown(before, n) && Sane()
      requires page >= 1 && 1 <= k <= n && page + n <= PAGE_LIMIT && ApartFromAll(spans, Span(page, n, InUse, 0))
      modifies this`spans, this`pagemap, this`normal, this`returned, this`stats, this`releaseIndex, this`systemTaken,
        this`refusals
      ensures Valid() && Extends(old(spans), spans) && refusals >= old(refusals)
      ensures exists r :: Fit(spans, r, k)
    {
      hide Geometry, OnLists, Coalesced, SamePages, PagesAt, Coarsens, Extends, ApartFromAll, Owns, Fit;
      var f := NewSpan();
      var span := Span(page, n, InUse, 0);
      GrownState(spans, pagemap, normal, returned, before, leaked, f, span);
      spans, pagemap := spans[f := span], Recorded(pagemap, span, f);
      Delete(f);
      GrownThenFreed(old(spans), spans, f, span, k);
    }

    method New(n: int) returns (res: Option<SpanRef>, ghost growth: Growth)
      requires Valid() && n >= 1
      modifies this
      ensures Valid() && limitMb == old(limitMb)
      ensures res.Some? ==> Grants(old(spans), spans, res.value, n)
      ensures res.None? ==> SameInUse(old(spans), spans)
      ensures forall p :: Owns(old(spans), p) ==> Owns(spans, p)
      // With no limit: a fit is used before the heap grows, and only the system's
      // refusal makes the allocation fail.
      ensures Limit() == 0 && !NoFit(old(spans), n) ==>
        && res.Some? && BestFit(old(spans), res.value, n) && CarvedFrom(old(spans), spans, res.value, n)
        && stats.systemBytes == old(stats).systemBytes
      ensures Limit() == 0 && res.None? ==> growth in {TooManyPages, SystemRefused, TagsRefused}
      // With a limit it fails only after trying to grow, and over the limit only when even
      // releasing what is free does not make room or the system refuses a release.
      ensures res.None? ==> growth != NotTried
      ensures res.None? && growth == OverLimit ==> !WithinLimit(n) && (Refused(old(refusals)) || stats.freeBytes == 0)
      ensures res.None? && growth == Grew && !Refused(old(refusals)) ==> Exhausted(n)
      ensures leaked >= old(leaked) && (leaked > old(leaked) <==> growth == TagsRefused)
    {
      hide Geometry, OnLists, Coalesced, SamePages, PagesAt, Coarsens, Books, Extends, Owns, CarvedFrom, BestFit,
        SameInUse, Grants, Fit;
      growth := NotTried;
      ghost var before;
      res, before := SearchFreeAndLargeLists(n);
      CoarseExtends(old(spans), before);
      if res.Some? {
        CarvedExtends(old(spans), before, spans, res.value, n);
        return;
      }
      ExtendsParts(old(spans), spans);
      if stats.freeBytes != 0 && stats.unmappedBytes != 0
        && stats.freeBytes + stats.unmappedBytes >= stats.systemBytes / 4
        && stats.systemBytes / FORCED_COALESCE_INTERVAL
           != (stats.systemBytes + n * PAGE_SIZE) / FORCED_COALESCE_INTERVAL
      {
        var _ := ReleaseAtLeastNPages(0x7fffffff);
        CoarsensTrans(old(spans), before, spans);
        before := spans;
        ghost var m := before;
        res, before := SearchFreeAndLargeLists(n);
        CoarsensTrans(old(spans), m, before);
        CoarseExtends(old(spans), before);
        if res.Some? {
          CarvedExtends(old(spans), before, spans, res.value, n);
          return;
        }
      }
      ghost var m := spans;
      CoarseExtends(old(spans), m);
      var grew;
      grew, growth := GrowHeap(n);
      ghost var m' := spans;
      ExtendsTrans(old(spans), m, m');
      ExtendsParts(old(spans), m');
      if !grew { return None, growth; }
      res, before := SearchFreeAndLargeLists(n);
      CoarseExtends(m', before);
      ExtendsTrans(old(spans), m', before);
      ExtendsParts(old(spans), before);
      if res.Some? { CarvedExtends(old(spans), before, spans, res.value, n); }
    }

    method Split(r: SpanRef, n: int) returns (f: SpanRef)
      requires Valid() && r in spans && spans[r].location == InUse && spans[r].sizeclass == 0
      requires 0 < n < spans[r].length
      modifies this`spans, this`pagemap, this`systemTaken
      ensures Valid() && f !in old(spans) && spans == Cut(old(spans), r, n, f, InUse)
      ensures SamePages(old(spans), spans)
    {
      hide Geometry, OnLists, Coalesced, SamePages, PagesAt, Filed;
      ghost var m := spans;
      SpanFitsInt(spans, pagemap, stats, leaked, r);
      var extra := ToInt32(spans[r].length - n);
      f := NewSpan();
      GeometryCut(m, pagemap, r, n, f, InUse);
      SplitState(m, pagemap, normal, returned, stats, leaked, r, n, f);
      var leftover := Span(spans[r].start + n, extra, InUse, 0);
      pagemap := Recorded(pagemap, leftover, f)[spans[r].start + n - 1 := r];
      spans := spans[r := spans[r].(length := n)][f := leftover];
    }

    method RegisterSizeClass(r: SpanRef, sc: nat)
      requires Valid() && r in spans && spans[r].location == InUse
      modifies this`spans, this`pagemap
      ensures Valid() && spans == old(spans)[r := old(spans)[r].(sizeclass := sc)]
      ensures SamePages(old(spans), spans)
    {
      hide Geometry, OnLists, Coalesced, SamePages, PagesAt, Filed;
      ghost var m, pm := spans, pagemap;
      BothEnds(m, pm, r);
      spans := spans[r := spans[r].(sizeclass := sc)];
      var i := 1;
      while i < spans[r].length - 1
        invariant spans == m[r := m[r].(sizeclass := sc)] && 1 <= i
        invariant i <= spans[r].length - 1 || (i == 1 && spans[r].length == 1)
        invariant TagsRange(pm, pagemap, m[r].start, m[r].start + i, r)
      {
        pagemap := pagemap[spans[r].start + i := r];
        i := i + 1;
      }
      RegisteredState(m, pm, pagemap, normal, returned, stats, leaked, r, sc, i);
    }

    /** A free span is on the list selected by its length and location, and on no other. */
    lemma OnExactlyOneList(r: SpanRef, i: int)
      requires Valid() && r in spans && 0 <= i <= MAX_PAGES
      ensures r in normal[i] <==> spans[r].location == Normal && i == ListIndex(spans[r].length)
      ensures r in returned[i] <==> spans[r].location == Returned && i == ListIndex(spans[r].length)
    {
      assert ListHolds(spans, normal[i], i, Normal, {}) && ListHolds(spans, returned[i], i, Returned, {});
    }

    /** The books balance: what the system gave is in use, free, returned or leaked. */
    lemma BooksBalance()
      requires Valid()
      ensures stats.unmappedBytes + stats.committedBytes == stats.systemBytes
      ensures stats.systemBytes
           == stats.freeBytes + stats.unmappedBytes + PAGE_SIZE * (PagesAt(spans, InUse) + leaked)
    {
    }
  }

  // -------------------------------------------------------------- a refused fit

  /** A committed span of 200 pages and a returned one of 150, under a limit of 1 MB with
      400 pages taken: asked for 140 pages, AllocLarge fails although the committed span
      would do, and the assertion that there is no such span does not hold. */
  method CommittedFitPassedOver() returns (heap: PageHeap, res: Option<SpanRef>, ghost before: Spans)
    ensures fresh(heap) && heap.Valid() && res.None?
    ensures LargeFit(before, 0, 140) && before[0].location == Normal && Coarsens(before, heap.spans)
  {
    hide Geometry, Filed, Coalesced, Books, Coarsens, ReturnedWins, NoLargeFit;
    var m, st := TwoSpans(), Stats(350 * PAGE_SIZE, 200 * PAGE_SIZE, 150 * PAGE_SIZE, 200 * PAGE_SIZE);
    var nl, rl := OnlyLarge(0), OnlyLarge(1);
    TwoSpansFiled();
    TwoSpansGeometry();
    TwoSpansBooks();
    heap := new PageHeap(1);
    heap.spans, heap.pagemap := m, map[1 := 0, 200 := 0, 300 := 1, 449 := 1];
    heap.normal, heap.returned, heap.stats, heap.systemTaken := nl, rl, st, 400 * PAGE_SIZE;
    TwoSpansCompared();
    before := m;
    ghost var middle, entries;
    res, middle, entries := heap.AllocLarge(140);
  }

  function TwoSpans(): Spans { map[0 := Span(1, 200, Normal, 0), 1 := Span(300, 150, Returned, 0)] }

  function OnlyLarge(r: SpanRef): Lists { seq(MAX_PAGES + 1, i => if i == MAX_PAGES then [r] else []) }

  lemma TwoSpansCompared()
    ensures ReturnedWins(TwoSpans(), 140) && LargeFit(TwoSpans(), 0, 140)
  {
    assert LargeFit(TwoSpans(), 1, 140);
  }

  lemma TwoSpansFiled()
    ensures Filed(TwoSpans(), OnlyLarge(0), OnlyLarge(1), {})
  {
    forall i | 0 <= i <= MAX_PAGES
      ensures ListHolds(TwoSpans(), OnlyLarge(0)[i], i, Normal, {})
      ensures ListHolds(TwoSpans(), OnlyLarge(1)[i], i, Returned, {})
    {
    }
  }

  lemma TwoSpansGeometry()
    ensures Geometry(TwoSpans(), map[1 := 0, 200 := 0, 300 := 1, 449 := 1]) && Coalesced(TwoSpans(), {})
  {
    var m, pm: PageMap := TwoSpans(), map[1 := 0, 200 := 0, 300 := 1, 449 := 1];
    forall p | p in pm ensures Owns(m, p) { assert m[pm[p]].Covers(p); }
  }

  lemma TwoSpansBooks()
    ensures Books(TwoSpans(), TwoSpans(), Stats(350 * PAGE_SIZE, 200 * PAGE_SIZE, 150 * PAGE_SIZE, 200 * PAGE_SIZE), 0)
  {
    var m := TwoSpans();
    forall loc ensures PagesAt(m, loc) == Weight(m[0], loc) + Weight(m[1], loc) {
      PagesDrop(m, loc, 0);
      PagesDrop(m - {0}, loc, 1);
      assert m - {0} - {1} == map[];
    }
  }

  /** The first run of 128 pages, with no room for its tags in the page map: the pages are
      counted and belong to no span. */
  method PagesLeaked() returns (heap: PageHeap)
    ensures fresh(heap) && heap.Valid() && heap.stats.systemBytes == 128 * PAGE_SIZE
    ensures heap.leaked == 128 && forall p :: !Owns(heap.spans, p)
  {
    hide Geometry, Filed, Coalesced, Books, Extends;
    heap := new PageHeap(0);
    heap.systemTaken := 128 * PAGE_SIZE;
    heap.RecordRun(1, 128, false, 1);
  }

  // --------------------------------------------------------------- whole runs

  datatype Op =
    | OpNew(pages: int)
    | OpDelete(span: SpanRef)
    | OpSplit(span: SpanRef, pages: int)
    | OpRegister(span: SpanRef, sizeclass: nat)
    | OpRelease(pages: int)
    | OpSetLimit(mb: nat)

  ghost function InUseRefs(m: Spans): set<SpanRef> { set r | r in m && m[r].location == InUse }

  lemma HeldSame(m: Spans, m': Spans)
    requires SameInUse(m, m')
    ensures InUseRefs(m) == InUseRefs(m')
  {
    forall r | r in InUseRefs(m) ensures r in InUseRefs(m') { assert m'[r] == m[r]; }
    forall r | r in InUseRefs(m') ensures r in InUseRefs(m) { assert m[r] == m'[r]; }
  }

  lemma ReleaseHeld(m: Spans, m': Spans)
    requires Coarsens(m, m')
    ensures InUseRefs(m) == InUseRefs(m')
  {
    HeldSame(m, m');
  }

  lemma HeldFreed(m: Spans, m': Spans, r: SpanRef)
    requires r in m && Coarsens(Relocated(m, r, Normal), m')
    ensures InUseRefs(m') == InUseRefs(m) - {r}
  {
    HeldSame(Relocated(m, r, Normal), m');
    assert InUseRefs(Relocated(m, r, Normal)) == InUseRefs(m) - {r};
  }

  lemma HeldGranted(m: Spans, m': Spans, r: SpanRef, n: int)
    requires Grants(m, m', r, n)
    ensures InUseRefs(m') == InUseRefs(m) + {r}
  {
    forall s | s in InUseRefs(m) ensures s in InUseRefs(m') { assert m'[s] == m[s]; }
    forall s | s in InUseRefs(m') && s != r ensures s in InUseRefs(m) { assert m[s] == m'[s]; }
  }

  /** Any client script that frees, splits and registers only spans it holds: the
      heap invariant survives every step, and the spans in use are exactly those
      the client holds. */
  method Run(heap: PageHeap, ops: seq<Op>) returns (held: set<SpanRef>)
    requires heap.Valid() && InUseRefs(heap.spans) == {}
    modifies heap
    ensures heap.Valid() && held == InUseRefs(heap.spans)
  {
    hide Geometry, Filed, Coalesced, PagesAt, Books, SamePages, BestFit, CarvedFrom, StillFree, Owns, Coarsens,
      SameInUse, Grants;
    held := {};
    for i := 0 to |ops|
      invariant heap.Valid() && held == InUseRefs(heap.spans)
    {
      ghost var m := heap.spans;
      match ops[i]
      case OpNew(n) =>
        if n >= 1 {
          var res, _ := heap.New(n);
          if res.Some? {
            HeldGranted(m, heap.spans, res.value, n);
            held := held + {res.value};
          } else {
            HeldSame(m, heap.spans);
          }
        }
      case OpDelete(r) =>
        if r in held {
          heap.Delete(r);
          HeldFreed(m, heap.spans, r);
          held := held - {r};
        }
      case OpSplit(r, n) =>
        if r in held && heap.spans[r].sizeclass == 0 && 0 < n < heap.spans[r].length {
          var f := heap.Split(r, n);
          held := held + {f};
        }
      case OpRegister(r, sc) =>
        if r in held { heap.RegisterSizeClass(r, sc); }
      case OpRelease(n) =>
        var _ := heap.ReleaseAtLeastNPages(n);
        ReleaseHeld(m, heap.spans);
      case OpSetLimit(mb) =>
        heap.limitMb := mb;
    }
  }
}
