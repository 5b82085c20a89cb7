/** Span records, boundary tags and free lists of the page heap, as values.

    A `Span*` of the allocator is a `SpanRef`: a key of the map that holds the
    records currently allocated.  Deleting a record frees its key for reuse, so
    a stale page-map entry may name a missing record or, later, a different one. */
module SpanTable {
  import opened Common

  const MAX_PAGES: int := 128
  const INT_LIMIT: int := 0x8000_0000
  /** Addresses have 48 bits. */
  const PAGE_LIMIT: int := 0x8_0000_0000

  type SpanRef = nat

  datatype Location = InUse | Normal | Returned

  datatype Span = Span(start: int, length: int, location: Location, sizeclass: nat) {
    function End(): int { start + length }

    predicate Covers(p: int) { start <= p < End() }

    predicate Free() { location != InUse }
  }

  type Spans = map<SpanRef, Span>
  type PageMap = map<int, SpanRef>
  type Lists = seq<seq<SpanRef>>

  /** The value a C `int` receives from a wider integer. */
  function ToInt32(x: int): int {
    var w := x % 0x1_0000_0000;
    if w < INT_LIMIT then w else w - 0x1_0000_0000
  }

  // ---------------------------------------------------------------- geometry

  ghost predicate Sized(m: Spans) {
    forall r :: r in m ==>
      m[r].start >= 1 && m[r].length >= 1 && m[r].End() <= PAGE_LIMIT && (m[r].Free() ==> m[r].sizeclass == 0)
  }

  predicate Apart(a: Span, b: Span) { a.End() <= b.start || b.End() <= a.start }

  ghost predicate Disjoint(m: Spans) {
    forall r, s {:trigger Apart(m[r], m[s])} :: r in m && s in m && r != s ==> Apart(m[r], m[s])
  }

  ghost predicate TagsAt(m: Spans, pm: PageMap, r: SpanRef)
    requires r in m
  {
    && m[r].start in pm && pm[m[r].start] == r
    && m[r].End() - 1 in pm && pm[m[r].End() - 1] == r
  }

  ghost predicate Tagged(m: Spans, pm: PageMap) {
    forall r {:trigger TagsAt(m, pm, r)} :: r in m ==> TagsAt(m, pm, r)
  }

  ghost predicate PageIs(pm: PageMap, p: int, r: SpanRef) { p in pm && pm[p] == r }

  ghost predicate Registered(m: Spans, pm: PageMap) {
    forall r, p {:trigger PageIs(pm, p, r)} :: r in m && m[r].sizeclass != 0 && m[r].Covers(p) ==> PageIs(pm, p, r)
  }

  ghost predicate Owns(m: Spans, p: int) {
    exists r :: r in m && m[r].Covers(p)
  }

  ghost predicate Backed(m: Spans, pm: PageMap) {
    forall p {:trigger Owns(m, p)} :: p in pm ==> Owns(m, p)
  }

  /** The shape every reachable heap has: disjoint spans, both boundary pages of
      each tagged with it, every page of a registered span tagged with it, and no
      tag outside a span.  Interior tags of other spans are unconstrained. */
  ghost predicate Geometry(m: Spans, pm: PageMap) {
    Sized(m) && Disjoint(m) && Tagged(m, pm) && Registered(m, pm) && Backed(m, pm)
  }

  ghost predicate SamePages(m: Spans, m': Spans) {
    forall p :: Owns(m, p) <==> Owns(m', p)
  }

  /** A page belongs to at most one span, so with `Owns` the spans partition the
      pages of the heap. */
  lemma OwnerIsUnique(m: Spans, p: int, r: SpanRef, s: SpanRef)
    requires Disjoint(m) && r in m && s in m && m[r].Covers(p) && m[s].Covers(p)
    ensures r == s
  {
    assert r != s ==> Apart(m[r], m[s]);
  }

  /** The tag on the page just before a span, when there is one, is not stale: it
      names the span that ends there. */
  lemma TagBefore(m: Spans, pm: PageMap, r: SpanRef)
    requires Geometry(m, pm) && r in m && m[r].start - 1 in pm
    ensures var q := pm[m[r].start - 1]; q in m && q != r && m[q].End() == m[r].start
  {
    assert Owns(m, m[r].start - 1);
    var s :| s in m && m[s].Covers(m[r].start - 1);
    assert Apart(m[r], m[s]);
    assert TagsAt(m, pm, s);
  }

  /** Likewise for the page just after a span. */
  lemma TagAfter(m: Spans, pm: PageMap, r: SpanRef)
    requires Geometry(m, pm) && r in m && m[r].End() in pm
    ensures var q := pm[m[r].End()]; q in m && q != r && m[q].start == m[r].End()
  {
    assert Owns(m, m[r].End());
    var s :| s in m && m[s].Covers(m[r].End());
    assert Apart(m[r], m[s]);
    assert TagsAt(m, pm, s);
  }

  /** Conversely a neighbouring span is always found through the tags. */
  lemma NeighbourIsTagged(m: Spans, pm: PageMap, r: SpanRef, q: SpanRef)
    requires Geometry(m, pm) && r in m && q in m && m[q].End() == m[r].start
    ensures PageIs(pm, m[r].start - 1, q) && PageIs(pm, m[q].End(), r)
  {
    assert TagsAt(m, pm, q) && TagsAt(m, pm, r);
  }

  lemma {:induction false} UnusedRef(keys: set<SpanRef>) returns (f: SpanRef)
    ensures forall k :: k in keys ==> k < f
    decreases |keys|
  {
    if keys == {} {
      f := 0;
    } else {
      var k :| k in keys;
      f := UnusedRef(keys - {k});
      assert forall x :: x in keys ==> x == k || x in keys - {k};
      if f <= k { f := k + 1; }
    }
  }

  // ------------------------------------------------------- geometry of steps

  function Relocated(m: Spans, r: SpanRef, loc: Location): Spans
    requires r in m
  {
    m[r := m[r].(location := loc, sizeclass := 0)]
  }

  lemma GeometryRelocated(m: Spans, pm: PageMap, r: SpanRef, loc: Location)
    requires Geometry(m, pm) && r in m
    ensures Geometry(Relocated(m, r, loc), pm) && SamePages(m, Relocated(m, r, loc))
  {
    var m' := Relocated(m, r, loc);
    forall s | s in m' ensures TagsAt(m', pm, s) { assert TagsAt(m, pm, s); }
    forall s, t | s in m' && t in m' && s != t ensures Apart(m'[s], m'[t]) {
      assert Apart(m[s], m[t]);
    }
    forall p ensures Owns(m, p) <==> Owns(m', p) {
      if Owns(m, p) { var s :| s in m && m[s].Covers(p); assert m'[s].Covers(p); }
      if Owns(m', p) { var s :| s in m' && m'[s].Covers(p); assert m[s].Covers(p); }
    }
  }

  /** `r` takes over the pages of its neighbour `q`, whose record is deleted. */
  function Absorbed(m: Spans, r: SpanRef, q: SpanRef): Spans
    requires r in m && q in m
  {
    var start := if m[q].start < m[r].start then m[q].start else m[r].start;
    (m - {q})[r := m[r].(start := start, length := m[r].length + m[q].length)]
  }

  ghost predicate Touch(a: Span, b: Span) { a.End() == b.start || b.End() == a.start }

  /** The boundary page that absorbing `q` re-tags. */
  function AbsorbedTag(m: Spans, r: SpanRef, q: SpanRef): int
    requires r in m && q in m
  {
    if m[q].start < m[r].start then m[q].start else m[q].End() - 1
  }

  lemma AbsorbedPages(m: Spans, r: SpanRef, q: SpanRef)
    requires Sized(m) && r in m && q in m && r != q && Touch(m[r], m[q])
    ensures SamePages(m, Absorbed(m, r, q))
  {
    var m' := Absorbed(m, r, q);
    forall p ensures Owns(m, p) <==> Owns(m', p) {
      if Owns(m, p) {
        var s :| s in m && m[s].Covers(p);
        var t := if s == q then r else s;
        assert t in m' && m'[t].Covers(p);
      }
      if Owns(m', p) {
        var s :| s in m' && m'[s].Covers(p);
        assert s in m;
        assert m[s].Covers(p) || (s == r && m[q].Covers(p));
      }
    }
  }

  lemma DisjointAbsorbed(m: Spans, r: SpanRef, q: SpanRef)
    requires Sized(m) && Disjoint(m) && r in m && q in m && r != q && Touch(m[r], m[q])
    ensures Disjoint(Absorbed(m, r, q))
  {
    var m' := Absorbed(m, r, q);
    forall s, t | s in m' && t in m' && s != t ensures Apart(m'[s], m'[t]) {
      assert Apart(m[s], m[t]);
      if s == r { assert Apart(m[q], m[t]); }
      if t == r { assert Apart(m[q], m[s]); }
    }
  }

  lemma TaggedAbsorbed(m: Spans, pm: PageMap, r: SpanRef, q: SpanRef)
    requires Sized(m) && Disjoint(m) && Tagged(m, pm) && r in m && q in m && r != q && Touch(m[r], m[q])
    ensures Tagged(Absorbed(m, r, q), pm[AbsorbedTag(m, r, q) := r])
  {
    var m', pm' := Absorbed(m, r, q), pm[AbsorbedTag(m, r, q) := r];
    assert TagsAt(m, pm, r) && TagsAt(m, pm, q);
    forall s | s in m' ensures TagsAt(m', pm', s) {
      if s != r { assert TagsAt(m, pm, s) && Apart(m[q], m[s]); }
    }
  }

  lemma GeometryAbsorbed(m: Spans, pm: PageMap, r: SpanRef, q: SpanRef)
    requires Geometry(m, pm) && r in m && q in m && r != q
    requires m[r].Free() && m[q].Free() && Touch(m[r], m[q])
    ensures Geometry(Absorbed(m, r, q), pm[AbsorbedTag(m, r, q) := r])
    ensures SamePages(m, Absorbed(m, r, q))
  {
    AbsorbedPages(m, r, q);
    DisjointAbsorbed(m, r, q);
    TaggedAbsorbed(m, pm, r, q);
    var m', pm' := Absorbed(m, r, q), pm[AbsorbedTag(m, r, q) := r];
    forall s, p | s in m' && m'[s].sizeclass != 0 && m'[s].Covers(p) ensures PageIs(pm', p, s) {
      assert s != r && PageIs(pm, p, s) && Apart(m[q], m[s]);
    }
    forall p | p in pm' ensures Owns(m', p) {
      if p !in pm { assert m[q].Covers(p); }
      assert Owns(m, p);
    }
  }

  /** `r` keeps its first `n` pages; the rest becomes the new record `f`. */
  function Cut(m: Spans, r: SpanRef, n: int, f: SpanRef, loc: Location): Spans
    requires r in m
  {
    m[r := m[r].(length := n)][f := Span(m[r].start + n, m[r].length - n, loc, 0)]
  }

  /** RecordSpan: tag both ends of a span. */
  function Recorded(pm: PageMap, s: Span, r: SpanRef): PageMap {
    var pm1 := pm[s.start := r];
    if s.length > 1 then pm1[s.End() - 1 := r] else pm1
  }

  function CutTags(m: Spans, pm: PageMap, r: SpanRef, n: int, f: SpanRef, loc: Location): PageMap
    requires r in m
  {
    Recorded(pm, Span(m[r].start + n, m[r].length - n, loc, 0), f)[m[r].start + n - 1 := r]
  }

  lemma CutPages(m: Spans, r: SpanRef, n: int, f: SpanRef, loc: Location)
    requires r in m && f !in m && 0 < n < m[r].length
    ensures SamePages(m, Cut(m, r, n, f, loc))
  {
    var m' := Cut(m, r, n, f, loc);
    forall p ensures Owns(m, p) <==> Owns(m', p) {
      if Owns(m, p) {
        var s :| s in m && m[s].Covers(p);
        var t := if s == r && !m'[r].Covers(p) then f else s;
        assert t in m' && m'[t].Covers(p);
      }
      if Owns(m', p) {
        var s :| s in m' && m'[s].Covers(p);
        var t := if s == f then r else s;
        assert t in m && m[t].Covers(p);
      }
    }
  }

  lemma DisjointCut(m: Spans, r: SpanRef, n: int, f: SpanRef, loc: Location)
    requires Disjoint(m) && r in m && f !in m && 0 < n < m[r].length
    ensures Disjoint(Cut(m, r, n, f, loc))
  {
    var m' := Cut(m, r, n, f, loc);
    forall s, t | s in m' && t in m' && s != t ensures Apart(m'[s], m'[t]) {
      var s0, t0 := if s == f then r else s, if t == f then r else t;
      assert s0 == t0 || Apart(m[s0], m[t0]);
    }
  }

  lemma TaggedCut(m: Spans, pm: PageMap, r: SpanRef, n: int, f: SpanRef, loc: Location)
    requires Sized(m) && Disjoint(m) && Tagged(m, pm) && r in m && f !in m && 0 < n < m[r].length
    ensures Tagged(Cut(m, r, n, f, loc), CutTags(m, pm, r, n, f, loc))
  {
    var m', pm' := Cut(m, r, n, f, loc), CutTags(m, pm, r, n, f, loc);
    assert TagsAt(m, pm, r);
    forall s | s in m' ensures TagsAt(m', pm', s) {
      if s != f && s != r { assert TagsAt(m, pm, s) && Apart(m[r], m[s]); }
    }
  }

  lemma GeometryCut(m: Spans, pm: PageMap, r: SpanRef, n: int, f: SpanRef, loc: Location)
    requires Geometry(m, pm) && r in m && f !in m && 0 < n < m[r].length && m[r].sizeclass == 0
    ensures Geometry(Cut(m, r, n, f, loc), CutTags(m, pm, r, n, f, loc))
    ensures SamePages(m, Cut(m, r, n, f, loc))
  {
    CutPages(m, r, n, f, loc);
    DisjointCut(m, r, n, f, loc);
    TaggedCut(m, pm, r, n, f, loc);
    var m', pm' := Cut(m, r, n, f, loc), CutTags(m, pm, r, n, f, loc);
    forall s, p | s in m' && m'[s].sizeclass != 0 && m'[s].Covers(p) ensures PageIs(pm', p, s) {
      assert s != r && s != f && PageIs(pm, p, s) && Apart(m[r], m[s]);
    }
    forall p | p in pm' ensures Owns(m', p) {
      if p !in pm { assert m[r].Covers(p); }
      assert Owns(m, p);
    }
  }

  /** The run of pages `s` is disjoint from every span. */
  predicate ApartFromAll(m: Spans, s: Span) {
    forall t :: t in m ==> Apart(m[t], s)
  }

  lemma GrownPages(m: Spans, f: SpanRef, s: Span)
    requires f !in m
    ensures forall q :: Owns(m[f := s], q) <==> Owns(m, q) || s.Covers(q)
  {
    var m' := m[f := s];
    forall q ensures Owns(m', q) <==> Owns(m, q) || s.Covers(q) {
      if Owns(m', q) { var t :| t in m' && m'[t].Covers(q); assert t == f || m[t].Covers(q); }
      if Owns(m, q) { var t :| t in m && m[t].Covers(q); assert m'[t].Covers(q); }
      if s.Covers(q) { assert m'[f].Covers(q); }
    }
  }

  lemma DisjointGrown(m: Spans, f: SpanRef, s: Span)
    requires Sized(m) && Disjoint(m) && f !in m && s.length >= 1 && ApartFromAll(m, s)
    ensures Disjoint(m[f := s])
  {
    var m' := m[f := s];
    forall t, u | t in m' && u in m' && t != u ensures Apart(m'[t], m'[u]) {
      if t != f && u != f { assert Apart(m[t], m[u]); }
    }
  }

  lemma TaggedGrown(m: Spans, pm: PageMap, f: SpanRef, s: Span)
    requires Sized(m) && Tagged(m, pm) && Registered(m, pm)
    requires f !in m && s.length >= 1 && s.sizeclass == 0 && ApartFromAll(m, s)
    ensures Tagged(m[f := s], Recorded(pm, s, f)) && Registered(m[f := s], Recorded(pm, s, f))
  {
    var m', pm' := m[f := s], Recorded(pm, s, f);
    forall t | t in m' ensures TagsAt(m', pm', t) {
      if t != f { assert TagsAt(m, pm, t) && Apart(m[t], s); }
    }
    forall t, q | t in m' && m'[t].sizeclass != 0 && m'[t].Covers(q) ensures PageIs(pm', q, t) {
      assert t != f && PageIs(pm, q, t) && Apart(m[t], s);
    }
  }

  lemma GeometryGrown(m: Spans, pm: PageMap, f: SpanRef, s: Span)
    requires Geometry(m, pm) && f !in m && s.start >= 1 && s.length >= 1 && s.End() <= PAGE_LIMIT && ApartFromAll(m, s)
    requires s.location == InUse && s.sizeclass == 0
    ensures Geometry(m[f := s], Recorded(pm, s, f))
    ensures forall q :: Owns(m[f := s], q) <==> Owns(m, q) || s.Covers(q)
  {
    DisjointGrown(m, f, s);
    TaggedGrown(m, pm, f, s);
    GrownPages(m, f, s);
    forall q | q in Recorded(pm, s, f) ensures Owns(m[f := s], q) {
      assert q in pm || s.Covers(q);
      assert q in pm ==> Owns(m, q);
    }
  }

  // -------------------------------------------------------------- free lists

  function ListIndex(length: int): nat {
    if 0 <= length < MAX_PAGES then length else MAX_PAGES
  }

  /** DLL_Remove: the list without its entry `r`, order kept. */
  function Without(s: seq<SpanRef>, r: SpanRef): seq<SpanRef> {
    if s == [] then [] else if s[0] == r then s[1..] else [s[0]] + Without(s[1..], r)
  }

  lemma {:induction false} WithoutProps(s: seq<SpanRef>, r: SpanRef)
    requires NoRepeats(s)
    ensures NoRepeats(Without(s, r))
    ensures forall x :: x in Without(s, r) <==> x in s && x != r
  {
    if s != [] {
      var t := s[1..];
      assert s == [s[0]] + t;
      assert NoRepeats(t);
      assert s[0] !in t;
      if s[0] != r { WithoutProps(t, r); }
    }
  }

  lemma {:induction false} WithoutLast(s: seq<SpanRef>)
    requires NoRepeats(s) && s != []
    ensures Without(s, s[|s| - 1]) == s[..|s| - 1]
  {
    if |s| > 1 {
      assert s[0] != s[|s| - 1];
      assert s[1..][..|s| - 2] == s[1..|s| - 1];
      WithoutLast(s[1..]);
    }
  }

  ghost predicate ListHolds(m: Spans, list: seq<SpanRef>, i: int, loc: Location, hole: set<SpanRef>) {
    && NoRepeats(list)
    && forall r :: r in list <==> r in m && r !in hole && m[r].location == loc && ListIndex(m[r].length) == i
  }

  /** Every free span at `loc` outside `hole` is on the list its length selects,
      once, and the lists hold nothing else. */
  ghost predicate OnLists(m: Spans, lists: Lists, loc: Location, hole: set<SpanRef>) {
    |lists| == MAX_PAGES + 1 && forall i :: 0 <= i <= MAX_PAGES ==> ListHolds(m, lists[i], i, loc, hole)
  }

  lemma ListedAt(m: Spans, lists: Lists, loc: Location, r: SpanRef)
    requires OnLists(m, lists, loc, {}) && r in m && m[r].location == loc
    ensures r in lists[ListIndex(m[r].length)]
  {
    assert ListHolds(m, lists[ListIndex(m[r].length)], ListIndex(m[r].length), loc, {});
  }

  function Unlinked(m: Spans, lists: Lists, r: SpanRef): Lists
    requires r in m && |lists| == MAX_PAGES + 1
  {
    var i := ListIndex(m[r].length);
    lists[i := Without(lists[i], r)]
  }

  function Linked(m: Spans, lists: Lists, r: SpanRef): Lists
    requires r in m && |lists| == MAX_PAGES + 1
  {
    var i := ListIndex(m[r].length);
    lists[i := [r] + lists[i]]
  }

  lemma OnListsUnlinked(m: Spans, lists: Lists, loc: Location, hole: set<SpanRef>, r: SpanRef)
    requires OnLists(m, lists, loc, hole) && r in m && r !in hole && m[r].location == loc
    ensures OnLists(m, Unlinked(m, lists, r), loc, hole + {r})
  {
    var lists' := Unlinked(m, lists, r);
    forall i | 0 <= i <= MAX_PAGES ensures ListHolds(m, lists'[i], i, loc, hole + {r}) {
      assert ListHolds(m, lists[i], i, loc, hole);
      WithoutProps(lists[i], r);
    }
  }

  lemma OnListsLinked(m: Spans, lists: Lists, loc: Location, r: SpanRef)
    requires OnLists(m, lists, loc, {r}) && r in m && m[r].location == loc
    ensures OnLists(m, Linked(m, lists, r), loc, {})
  {
    var lists' := Linked(m, lists, r);
    forall i | 0 <= i <= MAX_PAGES ensures ListHolds(m, lists'[i], i, loc, {}) {
      assert ListHolds(m, lists[i], i, loc, {r});
    }
  }

  /** Lists do not notice changes to spans outside them. */
  lemma OnListsFrame(m: Spans, m': Spans, lists: Lists, loc: Location, hole: set<SpanRef>, hole': set<SpanRef>)
    requires OnLists(m, lists, loc, hole)
    requires forall r {:trigger m[r]} {:trigger m'[r]} ::
      (r in m && r !in hole && m[r].location == loc) <==> (r in m' && r !in hole' && m'[r].location == loc)
    requires forall r :: r in m && r in m' && r !in hole && m[r].location == loc ==> m'[r].length == m[r].length
    ensures OnLists(m', lists, loc, hole')
  {
    forall i | 0 <= i <= MAX_PAGES ensures ListHolds(m', lists[i], i, loc, hole') {
      assert ListHolds(m, lists[i], i, loc, hole);
    }
  }

  ghost predicate Filed(m: Spans, nl: Lists, rl: Lists, hole: set<SpanRef>) {
    |nl| == |rl| == MAX_PAGES + 1 && OnLists(m, nl, Normal, hole) && OnLists(m, rl, Returned, hole)
  }

  /** Take `r` off, or put it on, the lists of location `loc` if that is where it belongs. */
  function Unfile(m: Spans, lists: Lists, loc: Location, r: SpanRef): Lists
    requires r in m && |lists| == MAX_PAGES + 1
  {
    if m[r].location == loc then Unlinked(m, lists, r) else lists
  }

  function File(m: Spans, lists: Lists, loc: Location, r: SpanRef): Lists
    requires r in m && |lists| == MAX_PAGES + 1
  {
    if m[r].location == loc then Linked(m, lists, r) else lists
  }

  lemma FiledOut(m: Spans, nl: Lists, rl: Lists, hole: set<SpanRef>, r: SpanRef)
    requires Filed(m, nl, rl, hole) && r in m && r !in hole && m[r].Free()
    ensures Filed(m, Unfile(m, nl, Normal, r), Unfile(m, rl, Returned, r), hole + {r})
  {
    if m[r].location == Normal {
      OnListsUnlinked(m, nl, Normal, hole, r);
      OnListsFrame(m, m, rl, Returned, hole, hole + {r});
    } else {
      OnListsUnlinked(m, rl, Returned, hole, r);
      OnListsFrame(m, m, nl, Normal, hole, hole + {r});
    }
  }

  lemma FiledIn(m: Spans, nl: Lists, rl: Lists, r: SpanRef)
    requires Filed(m, nl, rl, {r}) && r in m && m[r].Free()
    ensures Filed(m, File(m, nl, Normal, r), File(m, rl, Returned, r), {})
  {
    if m[r].location == Normal {
      OnListsLinked(m, nl, Normal, r);
      OnListsFrame(m, m, rl, Returned, {r}, {});
    } else {
      OnListsLinked(m, rl, Returned, r);
      OnListsFrame(m, m, nl, Normal, {r}, {});
    }
  }

  lemma FiledFrame(m: Spans, m': Spans, nl: Lists, rl: Lists, hole: set<SpanRef>, hole': set<SpanRef>)
    requires Filed(m, nl, rl, hole)
    requires forall r {:trigger m[r]} {:trigger m'[r]} ::
      (r in m && r !in hole && m[r].Free()) <==> (r in m' && r !in hole' && m'[r].Free())
    requires forall r :: r in m && r in m' && r !in hole && m[r].Free() ==>
      m'[r].length == m[r].length && m'[r].location == m[r].location
    ensures Filed(m', nl, rl, hole')
  {
    OnListsFrame(m, m', nl, Normal, hole, hole');
    OnListsFrame(m, m', rl, Returned, hole, hole');
  }

  lemma FiledAbsorbed(m: Spans, nl: Lists, rl: Lists, r: SpanRef, q: SpanRef)
    requires Filed(m, nl, rl, {r}) && r in m && q in m && q != r && m[q].Free()
    ensures Filed(Absorbed(m, r, q), Unfile(m, nl, Normal, q), Unfile(m, rl, Returned, q), {r})
  {
    FiledOut(m, nl, rl, {r}, q);
    FiledFrame(m, Absorbed(m, r, q), Unfile(m, nl, Normal, q), Unfile(m, rl, Returned, q), {r} + {q}, {r});
  }

  // -------------------------------------------------------------- page totals

  function Weight(s: Span, loc: Location): int { if s.location == loc then s.length else 0 }

  ghost function PagesAt(m: Spans, loc: Location): int
    decreases |m|
  {
    if m == map[] then 0 else
      var r :| r in m;
      Weight(m[r], loc) + PagesAt(m - {r}, loc)
  }

  lemma {:induction false} PagesDrop(m: Spans, loc: Location, r: SpanRef)
    requires r in m
    ensures PagesAt(m, loc) == Weight(m[r], loc) + PagesAt(m - {r}, loc)
    decreases |m|
  {
    var c :| c in m && PagesAt(m, loc) == Weight(m[c], loc) + PagesAt(m - {c}, loc);
    if c != r {
      PagesDrop(m - {c}, loc, r);
      PagesDrop(m - {r}, loc, c);
      assert m - {c} - {r} == m - {r} - {c};
    }
  }

  lemma PagesPut(m: Spans, loc: Location, r: SpanRef, s: Span)
    ensures PagesAt(m[r := s], loc) == Weight(s, loc) + PagesAt(m - {r}, loc)
  {
    PagesDrop(m[r := s], loc, r);
    assert m[r := s] - {r} == m - {r};
  }

  lemma {:induction false} PagesBound(m: Spans, loc: Location, r: SpanRef)
    requires Sized(m)
    ensures PagesAt(m, loc) >= 0
    ensures r in m ==> PagesAt(m, loc) >= Weight(m[r], loc)
    decreases |m|
  {
    if m != map[] {
      var c := if r in m then r else var c :| c in m; c;
      PagesDrop(m, loc, c);
      PagesBound(m - {c}, loc, c);
    }
  }

  lemma {:induction false} PagesPositive(m: Spans, loc: Location) returns (r: SpanRef)
    requires PagesAt(m, loc) != 0
    ensures r in m && m[r].location == loc
    decreases |m|
  {
    var c :| c in m;
    PagesDrop(m, loc, c);
    if m[c].location == loc { r := c; } else { r := PagesPositive(m - {c}, loc); }
  }

  lemma PagesRelocated(m: Spans, loc: Location, r: SpanRef, to: Location)
    requires r in m
    ensures PagesAt(Relocated(m, r, to), loc)
         == PagesAt(m, loc) - Weight(m[r], loc) + (if loc == to then m[r].length else 0)
    ensures Relocated(m, r, to) - {r} == m - {r}
  {
    PagesDrop(m, loc, r);
    PagesPut(m, loc, r, m[r].(location := to, sizeclass := 0));
  }

  lemma PagesAbsorbed(m: Spans, loc: Location, r: SpanRef, q: SpanRef)
    requires r in m && q in m && r != q && m[r].location == m[q].location
    ensures PagesAt(Absorbed(m, r, q), loc) == PagesAt(m, loc)
    ensures PagesAt(Absorbed(m, r, q) - {r}, loc) == PagesAt(m - {r}, loc) - Weight(m[q], loc)
  {
    PagesDrop(m, loc, r);
    PagesDrop(m - {r}, loc, q);
    assert m - {r} - {q} == m - {q} - {r} == Absorbed(m, r, q) - {r};
    PagesPut(m - {q}, loc, r, Absorbed(m, r, q)[r]);
  }

  lemma PagesCut(m: Spans, loc: Location, r: SpanRef, n: int, f: SpanRef, to: Location)
    requires r in m && f !in m
    ensures PagesAt(Cut(m, r, n, f, to), loc)
         == PagesAt(m, loc) - Weight(m[r], loc) + Weight(m[r].(length := n), loc)
            + (if loc == to then m[r].length - n else 0)
  {
    PagesDrop(m, loc, r);
    PagesPut(m, loc, r, m[r].(length := n));
    var m1 := m[r := m[r].(length := n)];
    PagesPut(m1, loc, f, Span(m[r].start + n, m[r].length - n, to, 0));
    assert m1 - {f} == m1;
  }

  // --------------------------------------------------------------- coalescing

  ghost predicate Meet(a: Span, b: Span) { a.End() == b.start && a.location == b.location }

  /** No two address-adjacent free spans outside `hole` share a location. */
  ghost predicate Coalesced(m: Spans, hole: set<SpanRef>) {
    forall r, s :: r in m && s in m && r !in hole && s !in hole && Meet(m[r], m[s]) ==> m[r].location == InUse
  }

  /** What freeing, merging and releasing do to the spans: in-use spans are
      untouched and every free run stays inside one free span. */
  ghost predicate Inside(s: Span, t: Span) { t.start <= s.start && s.End() <= t.End() }

  ghost predicate StillFree(s: Span, m': Spans) {
    exists t :: t in m' && m'[t].Free() && Inside(s, m'[t])
  }

  ghost predicate SameInUse(m: Spans, m': Spans) {
    forall r {:trigger m[r]} {:trigger m'[r]} ::
      (r in m && m[r].location == InUse ==> r in m' && m'[r] == m[r])
      && (r in m' && m'[r].location == InUse ==> r in m && m[r] == m'[r])
  }

  ghost predicate Coarsens(m: Spans, m': Spans) {
    && SameInUse(m, m')
    && (forall r :: r in m && m[r].Free() ==> StillFree(m[r], m'))
    && SamePages(m, m')
  }

  lemma CoarsensRefl(m: Spans)
    ensures Coarsens(m, m)
  {
    forall r | r in m && m[r].Free() ensures StillFree(m[r], m) { assert Inside(m[r], m[r]); }
  }

  lemma CoarsensTrans(m: Spans, m': Spans, m'': Spans)
    requires Coarsens(m, m') && Coarsens(m', m'')
    ensures Coarsens(m, m'')
  {
    forall r | r in m && m[r].Free() ensures StillFree(m[r], m'') {
      var t :| t in m' && m'[t].Free() && Inside(m[r], m'[t]);
      assert StillFree(m'[t], m'');
      var u :| u in m'' && m''[u].Free() && Inside(m'[t], m''[u]);
      assert Inside(m[r], m''[u]);
    }
  }

  lemma CoarsensAbsorbed(m: Spans, r: SpanRef, q: SpanRef)
    requires Sized(m) && r in m && q in m && r != q && m[r].Free() && m[q].Free() && Touch(m[r], m[q])
    ensures Coarsens(m, Absorbed(m, r, q))
  {
    var m' := Absorbed(m, r, q);
    AbsorbedPages(m, r, q);
    forall s | s in m && m[s].Free() ensures StillFree(m[s], m') {
      var t := if s == q then r else s;
      assert t in m' && m'[t].Free() && Inside(m[s], m'[t]);
    }
  }

  lemma CoarsensRelocated(m: Spans, r: SpanRef, loc: Location)
    requires r in m && m[r].Free() && loc != InUse
    ensures Coarsens(m, Relocated(m, r, loc))
  {
    var m' := Relocated(m, r, loc);
    forall s | s in m && m[s].Free() ensures StillFree(m[s], m') { assert Inside(m[s], m'[s]); }
    forall p ensures Owns(m, p) <==> Owns(m', p) {
      if Owns(m, p) { var s :| s in m && m[s].Covers(p); assert m'[s].Covers(p); }
      if Owns(m', p) { var s :| s in m' && m'[s].Covers(p); assert m[s].Covers(p); }
    }
  }
}
