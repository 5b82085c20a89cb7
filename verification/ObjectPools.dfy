/** The objects of one size class: which are free and chained, which are lent out,
    and how the chains in memory represent that. */
module ObjectPools {
  import opened Common
  import opened SpanTable
  import opened ObjectChains
  import opened ObjectMetadata

  /** A size class: object size, pages per span, objects moved at a time. */
  datatype Class = Class(id: nat, size: nat, pages: int, move: int)

  ghost predicate ClassOk(k: Class) {
    k.id > 0 && 0 < k.size <= MAX_SIZE && k.pages > 0 && k.move > 0 && ObjectCount(k.pages, k.size) >= 1
  }

  type Lent = map<SpanRef, set<Addr>>

  function Base(s: Span): Addr { s.start * PAGE_SIZE }

  function Capacity(k: Class): nat
    requires k.size > 0
  {
    if ObjectCount(k.pages, k.size) >= 0 then ObjectCount(k.pages, k.size) else 0
  }

  function Objects(k: Class, s: Span): seq<Addr>
    requires k.size > 0
  {
    Carved(Base(s), k.size, Capacity(k))
  }

  /** Every object of span `r` is either on its free chain or lent out. */
  ghost predicate SpanPool(k: Class, m: Spans, free: Chains, lent: Lent, r: SpanRef)
    requires k.size > 0
  {
    && r in m && r in free && r in lent
    && m[r].location == InUse && m[r].sizeclass == k.id && m[r].length == k.pages
    && NoRepeats(free[r]) && Members(free[r]) !! lent[r]
    && Members(free[r]) + lent[r] == Members(Objects(k, m[r]))
  }

  ghost predicate Pool(k: Class, m: Spans, free: Chains, lent: Lent)
    requires k.size > 0
  {
    && lent.Keys == free.Keys
    && forall r {:trigger SpanPool(k, m, free, lent, r)} :: r in free ==> SpanPool(k, m, free, lent, r)
  }

  ghost predicate IsLent(lent: Lent, o: Addr) { exists r :: r in lent && o in lent[r] }

  /** The page map leads from any object to its span. */
  lemma ObjectSpan(k: Class, m: Spans, pm: PageMap, free: Chains, lent: Lent, r: SpanRef, o: Addr)
    requires ClassOk(k) && Geometry(m, pm) && Pool(k, m, free, lent) && r in free && r in m
    requires o in Members(Objects(k, m[r]))
    ensures o > 0 && PageIs(pm, o / PAGE_SIZE, r)
  {
    assert SpanPool(k, m, free, lent, r);
    CarvedInside(Base(m[r]), k.size, k.pages * PAGE_SIZE, o);
    assert m[r].Covers(o / PAGE_SIZE);
    assert PageIs(pm, o / PAGE_SIZE, r);
  }

  lemma LentSpan(k: Class, m: Spans, pm: PageMap, free: Chains, lent: Lent, r: SpanRef, o: Addr)
    requires ClassOk(k) && Geometry(m, pm) && Pool(k, m, free, lent) && r in lent && o in lent[r]
    ensures r in free && o > 0 && PageIs(pm, o / PAGE_SIZE, r) && o !in free[r]
  {
    assert SpanPool(k, m, free, lent, r);
    ObjectSpan(k, m, pm, free, lent, r, o);
    assert o !in Members(free[r]);
  }

  /** A chained object is not lent, and belongs to no other chain. */
  lemma FreeIsNotLent(k: Class, m: Spans, pm: PageMap, free: Chains, lent: Lent, r: SpanRef, o: Addr)
    requires ClassOk(k) && Geometry(m, pm) && Pool(k, m, free, lent) && r in free && o in free[r]
    ensures !IsLent(lent, o) && forall s :: s in free && s != r ==> o !in free[s]
  {
    assert SpanPool(k, m, free, lent, r) && o in Members(free[r]);
    ObjectSpan(k, m, pm, free, lent, r, o);
    if IsLent(lent, o) {
      var s :| s in lent && o in lent[s];
      LentSpan(k, m, pm, free, lent, s, o);
    }
    forall s | s in free && s != r ensures o !in free[s] {
      assert SpanPool(k, m, free, lent, s);
      if o in free[s] { assert o in Members(free[s]); ObjectSpan(k, m, pm, free, lent, s, o); }
    }
  }

  lemma LentIsNotFree(k: Class, m: Spans, pm: PageMap, free: Chains, lent: Lent, o: Addr)
    requires ClassOk(k) && Geometry(m, pm) && Pool(k, m, free, lent) && IsLent(lent, o)
    ensures forall s :: s in free ==> o !in free[s]
  {
    forall s | s in free ensures o !in free[s] {
      if o in free[s] { FreeIsNotLent(k, m, pm, free, lent, s, o); }
    }
  }

  lemma LentUnique(k: Class, m: Spans, pm: PageMap, free: Chains, lent: Lent, r: SpanRef, s: SpanRef, o: Addr)
    requires ClassOk(k) && Geometry(m, pm) && Pool(k, m, free, lent)
    requires r in lent && o in lent[r] && s in lent && o in lent[s]
    ensures r == s
  {
    LentSpan(k, m, pm, free, lent, r, o);
    LentSpan(k, m, pm, free, lent, s, o);
  }

  // ---------------------------------------------------------- in-memory chains

  ghost predicate SpanChain(links: Links, heads: map<SpanRef, Addr>, free: Chains, r: SpanRef) {
    r in heads && r in free && ChainOf(links, heads[r], free[r])
  }

  ghost predicate ChainsOk(links: Links, heads: map<SpanRef, Addr>, free: Chains) {
    && heads.Keys == free.Keys
    && forall r {:trigger SpanChain(links, heads, free, r)} :: r in free ==> SpanChain(links, heads, free, r)
  }

  ghost predicate CountsOk(refcount: map<SpanRef, int>, lent: Lent) {
    refcount.Keys == lent.Keys && forall r :: r in lent ==> refcount[r] == |lent[r]|
  }

  /** `nonempty` and `empty` split the spans by whether they have a free object. */
  ghost predicate ListsOk(nonempty: seq<SpanRef>, empty: seq<SpanRef>, free: Chains) {
    && NoRepeats(nonempty) && NoRepeats(empty)
    && (forall r :: r in nonempty <==> r in free && free[r] != [])
    && (forall r :: r in empty <==> r in free && free[r] == [])
  }

  /** A chain parked in the transfer cache. */
  datatype Slot = Slot(head: Addr, tail: Addr)

  ghost predicate SlotOk(links: Links, lent: Lent, move: int, s: Slot, objs: seq<Addr>) {
    && objs != [] && |objs| == move && NoRepeats(objs) && ChainOf(links, s.head, objs)
    && s.tail == objs[|objs| - 1] && AllLent(lent, objs)
  }

  ghost predicate AllLent(lent: Lent, objs: seq<Addr>) {
    forall i :: 0 <= i < |objs| ==> IsLent(lent, objs[i])
  }

  ghost predicate Apart2(s: seq<Addr>, t: seq<Addr>) { forall i :: 0 <= i < |s| ==> s[i] !in t }

  ghost predicate StoredOk(links: Links, lent: Lent, move: int, slots: seq<Slot>, stored: seq<seq<Addr>>) {
    && |slots| == |stored|
    && (forall i :: 0 <= i < |slots| ==> SlotOk(links, lent, move, slots[i], stored[i]))
    && (forall i, j :: 0 <= i < |stored| && 0 <= j < |stored| && i != j ==> Apart2(stored[i], stored[j]))
  }

  /** A chain in a client's hands: lent objects, none of them parked. */
  ghost predicate Held(links: Links, lent: Lent, stored: seq<seq<Addr>>, head: Addr, objs: seq<Addr>) {
    && NoRepeats(objs) && ChainOf(links, head, objs) && AllLent(lent, objs)
    && forall i :: 0 <= i < |stored| ==> Apart2(objs, stored[i])
  }

  // ------------------------------------------------------ taking from a chain

  function TakenFree(free: Chains, r: SpanRef, n: int): Chains
    requires r in free && 0 <= n <= |free[r]|
  {
    free[r := free[r][n..]]
  }

  function TakenLent(free: Chains, lent: Lent, r: SpanRef, n: int): Lent
    requires r in free && r in lent && 0 <= n <= |free[r]|
  {
    lent[r := lent[r] + Members(free[r][..n])]
  }

  lemma MembersSplit(s: seq<Addr>, n: int)
    requires 0 <= n <= |s| && NoRepeats(s)
    ensures Members(s) == Members(s[..n]) + Members(s[n..]) && Members(s[..n]) !! Members(s[n..])
    ensures NoRepeats(s[..n]) && NoRepeats(s[n..])
  {
    forall x | x in Members(s) ensures x in Members(s[..n]) + Members(s[n..]) {
      var i :| 0 <= i < |s| && s[i] == x;
      if i < n { assert s[..n][i] == x; } else { assert s[n..][i - n] == x; }
    }
  }

  lemma PoolTaken(k: Class, m: Spans, free: Chains, lent: Lent, r: SpanRef, n: int)
    requires k.size > 0 && Pool(k, m, free, lent) && r in free && 0 <= n <= |free[r]|
    ensures Pool(k, m, TakenFree(free, r, n), TakenLent(free, lent, r, n))
    ensures |TakenLent(free, lent, r, n)[r]| == |lent[r]| + n
  {
    var free', lent' := TakenFree(free, r, n), TakenLent(free, lent, r, n);
    assert SpanPool(k, m, free, lent, r);
    MembersSplit(free[r], n);
    MembersCount(free[r][..n]);
    forall s | s in free' ensures SpanPool(k, m, free', lent', s) { assert SpanPool(k, m, free, lent, s); }
  }

  lemma LentGrows(free: Chains, lent: Lent, r: SpanRef, n: int, o: Addr)
    requires r in free && r in lent && 0 <= n <= |free[r]|
    ensures IsLent(lent, o) ==> IsLent(TakenLent(free, lent, r, n), o)
    ensures o in free[r][..n] ==> IsLent(TakenLent(free, lent, r, n), o)
  {
    var lent' := TakenLent(free, lent, r, n);
    if IsLent(lent, o) { var s :| s in lent && o in lent[s]; assert s in lent' && o in lent'[s]; }
    if o in free[r][..n] {
      var i :| 0 <= i < n && free[r][..n][i] == o;
      assert o in Members(free[r][..n]);
      assert o in lent'[r];
    }
  }

  lemma StoredWrite(links: Links, lent: Lent, lent': Lent, move: int, slots: seq<Slot>, stored: seq<seq<Addr>>, o: Addr,
                    v: Addr)
    requires StoredOk(links, lent, move, slots, stored)
    requires forall i :: 0 <= i < |stored| ==> o !in stored[i] && AllLent(lent', stored[i])
    ensures StoredOk(links[o := v], lent', move, slots, stored)
  {
    forall i | 0 <= i < |slots| ensures SlotOk(links[o := v], lent', move, slots[i], stored[i]) {
      assert SlotOk(links, lent, move, slots[i], stored[i]);
      ChainFrame(links, slots[i].head, stored[i], o, v);
    }
  }

  lemma ChainsWrite(links: Links, heads: map<SpanRef, Addr>, free: Chains, r: SpanRef, o: Addr, v: Addr, h: Addr,
                    s: seq<Addr>)
    requires ChainsOk(links, heads, free) && r in free && ChainOf(links[o := v], h, s)
    requires forall t :: t in free && t != r ==> o !in free[t]
    ensures ChainsOk(links[o := v], heads[r := h], free[r := s])
  {
    var links', heads', free' := links[o := v], heads[r := h], free[r := s];
    forall t | t in free' ensures SpanChain(links', heads', free', t) {
      if t != r {
        assert SpanChain(links, heads, free, t);
        ChainFrame(links, heads[t], free[t], o, v);
      }
    }
  }

  /** Taking the first `n` objects of a chain: the rest stays chained, the taken ones
      form a chain of their own, everything parked or held elsewhere is untouched. */
  lemma TakeKeeps(k: Class, m: Spans, pm: PageMap, links: Links, heads: map<SpanRef, Addr>, free: Chains, lent: Lent,
                  slots: seq<Slot>, stored: seq<seq<Addr>>, r: SpanRef, n: int)
    requires ClassOk(k) && Geometry(m, pm) && Pool(k, m, free, lent) && ChainsOk(links, heads, free)
    requires StoredOk(links, lent, k.move, slots, stored) && r in free && 1 <= n <= |free[r]|
    ensures var links', lent' := links[free[r][n - 1] := NULL], TakenLent(free, lent, r, n);
      && ChainsOk(links', heads[r := Head(free[r][n..])], TakenFree(free, r, n))
      && StoredOk(links', lent', k.move, slots, stored)
      && Held(links', lent', stored, heads[r], free[r][..n])
  {
    var o, lent' := free[r][n - 1], TakenLent(free, lent, r, n);
    var links' := links[o := NULL];
    assert SpanPool(k, m, free, lent, r) && SpanChain(links, heads, free, r);
    MembersSplit(free[r], n);
    ChainCut(links, heads[r], free[r], n);
    FreeIsNotLent(k, m, pm, free, lent, r, o);
    ChainsWrite(links, heads, free, r, o, NULL, Head(free[r][n..]), free[r][n..]);
    forall i | 0 <= i < |stored|
      ensures o !in stored[i] && AllLent(lent', stored[i]) && Apart2(free[r][..n], stored[i])
    {
      assert SlotOk(links, lent, k.move, slots[i], stored[i]);
      FreshFromStored(k, m, pm, free, lent, r, n, stored[i]);
    }
    StoredWrite(links, lent, lent', k.move, slots, stored, o, NULL);
    forall i | 0 <= i < n ensures IsLent(lent', free[r][..n][i]) { LentGrows(free, lent, r, n, free[r][..n][i]); }
  }

  lemma FreshFromStored(k: Class, m: Spans, pm: PageMap, free: Chains, lent: Lent, r: SpanRef, n: int, objs: seq<Addr>)
    requires ClassOk(k) && Geometry(m, pm) && Pool(k, m, free, lent) && r in free && 1 <= n <= |free[r]|
    requires AllLent(lent, objs)
    ensures AllLent(TakenLent(free, lent, r, n), objs) && Apart2(free[r][..n], objs) && free[r][n - 1] !in objs
  {
    forall i | 0 <= i < |objs| ensures IsLent(TakenLent(free, lent, r, n), objs[i]) {
      LentGrows(free, lent, r, n, objs[i]);
    }
    forall i | 0 <= i < n ensures free[r][i] !in objs {
      FreeIsNotLent(k, m, pm, free, lent, r, free[r][i]);
    }
  }

  // ------------------------------------------------------ giving an object back

  function GivenFree(free: Chains, r: SpanRef, o: Addr): Chains
    requires r in free
  {
    free[r := [o] + free[r]]
  }

  function GivenLent(lent: Lent, r: SpanRef, o: Addr): Lent
    requires r in lent
  {
    lent[r := lent[r] - {o}]
  }

  lemma PoolGiven(k: Class, m: Spans, free: Chains, lent: Lent, r: SpanRef, o: Addr)
    requires k.size > 0 && Pool(k, m, free, lent) && r in lent && o in lent[r]
    ensures Pool(k, m, GivenFree(free, r, o), GivenLent(lent, r, o))
    ensures |GivenLent(lent, r, o)[r]| == |lent[r]| - 1
  {
    var free', lent' := GivenFree(free, r, o), GivenLent(lent, r, o);
    assert SpanPool(k, m, free, lent, r);
    MembersPush(free[r], o);
    DistinctPush(free[r], o);
    hide Members, Objects, NoRepeats;
    forall s | s in free' ensures SpanPool(k, m, free', lent', s) { assert SpanPool(k, m, free, lent, s); }
  }

  lemma DistinctPush(s: seq<Addr>, o: Addr)
    requires NoRepeats(s) && o !in Members(s)
    ensures NoRepeats([o] + s)
  {
    forall i | 0 <= i < |s| ensures s[i] != o { assert s[i] in Members(s); }
  }

  lemma MembersPush(s: seq<Addr>, o: Addr)
    ensures Members([o] + s) == Members(s) + {o}
  {
    forall x | x in Members(s) ensures x in Members([o] + s) {
      var i :| 0 <= i < |s| && s[i] == x;
      assert ([o] + s)[i + 1] == x;
    }
    assert ([o] + s)[0] == o;
  }

  lemma StillLent(k: Class, m: Spans, pm: PageMap, free: Chains, lent: Lent, lent': Lent, r: SpanRef, o: Addr,
                  objs: seq<Addr>)
    requires ClassOk(k) && Geometry(m, pm) && Pool(k, m, free, lent) && r in lent && o in lent[r]
    requires AllLent(lent, objs) && o !in objs
    requires lent' == GivenLent(lent, r, o) || (lent[r] == {o} && lent' == lent - {r})
    ensures AllLent(lent', objs)
  {
    forall i | 0 <= i < |objs| ensures IsLent(lent', objs[i]) {
      var s :| s in lent && objs[i] in lent[s];
      assert objs[i] != o;
      assert s in lent' && objs[i] in lent'[s];
    }
  }

  lemma GiveKeeps(k: Class, m: Spans, pm: PageMap, links: Links, heads: map<SpanRef, Addr>, free: Chains, lent: Lent,
                  slots: seq<Slot>, stored: seq<seq<Addr>>, r: SpanRef, o: Addr)
    requires ClassOk(k) && Geometry(m, pm) && Pool(k, m, free, lent) && ChainsOk(links, heads, free)
    requires StoredOk(links, lent, k.move, slots, stored) && r in lent && o in lent[r]
    requires forall i :: 0 <= i < |stored| ==> o !in stored[i]
    ensures r in free && r in heads
    ensures ChainsOk(links[o := heads[r]], heads[r := o], GivenFree(free, r, o))
    ensures StoredOk(links[o := heads[r]], GivenLent(lent, r, o), k.move, slots, stored)
  {
    LentSpan(k, m, pm, free, lent, r, o);
    assert SpanChain(links, heads, free, r) && IsLent(lent, o);
    LentIsNotFree(k, m, pm, free, lent, o);
    ChainPush(links, heads[r], free[r], o);
    ChainsWrite(links, heads, free, r, o, heads[r], o, [o] + free[r]);
    forall i | 0 <= i < |stored| ensures AllLent(GivenLent(lent, r, o), stored[i]) {
      assert SlotOk(links, lent, k.move, slots[i], stored[i]);
      StillLent(k, m, pm, free, lent, GivenLent(lent, r, o), r, o, stored[i]);
    }
    StoredWrite(links, lent, GivenLent(lent, r, o), k.move, slots, stored, o, heads[r]);
  }

  /** The last lent object of a span comes back: the span leaves the pool whole. */
  lemma DropKeeps(k: Class, m: Spans, pm: PageMap, links: Links, heads: map<SpanRef, Addr>, free: Chains, lent: Lent,
                  slots: seq<Slot>, stored: seq<seq<Addr>>, r: SpanRef, o: Addr)
    requires ClassOk(k) && Geometry(m, pm) && Pool(k, m, free, lent) && ChainsOk(links, heads, free)
    requires StoredOk(links, lent, k.move, slots, stored) && r in lent && lent[r] == {o}
    requires forall i :: 0 <= i < |stored| ==> o !in stored[i]
    ensures Pool(k, m, free - {r}, lent - {r}) && ChainsOk(links, heads - {r}, free - {r})
    ensures StoredOk(links, lent - {r}, k.move, slots, stored)
  {
    var free', lent', heads' := free - {r}, lent - {r}, heads - {r};
    forall s | s in free' ensures SpanPool(k, m, free', lent', s) { assert SpanPool(k, m, free, lent, s); }
    forall s | s in free' ensures SpanChain(links, heads', free', s) { assert SpanChain(links, heads, free, s); }
    forall i | 0 <= i < |slots| ensures SlotOk(links, lent', k.move, slots[i], stored[i]) {
      assert SlotOk(links, lent, k.move, slots[i], stored[i]);
      StillLent(k, m, pm, free, lent, lent', r, o, stored[i]);
    }
  }

  // ------------------------------------------------------------ a new span

  ghost predicate AgreeOutside(links: Links, links': Links, objs: seq<Addr>) {
    forall x :: x !in objs ==> Next(links', x) == Next(links, x)
  }

  lemma PoolAdded(k: Class, m: Spans, free: Chains, lent: Lent, r: SpanRef)
    requires ClassOk(k) && Pool(k, m, free, lent) && r !in free
    requires r in m && m[r].location == InUse && m[r].sizeclass == k.id && m[r].length == k.pages
    ensures Pool(k, m, free[r := Objects(k, m[r])], lent[r := {}])
  {
    var free', lent' := free[r := Objects(k, m[r])], lent[r := {}];
    CarvedDistinct(Base(m[r]), k.size, Capacity(k));
    forall s | s in free' ensures SpanPool(k, m, free', lent', s) {
      if s != r { assert SpanPool(k, m, free, lent, s); }
    }
  }

  /** Objects of the new span were on no chain and lent to nobody. */
  lemma NewObjectsAreNew(k: Class, m: Spans, pm: PageMap, free: Chains, lent: Lent, r: SpanRef, o: Addr)
    requires ClassOk(k) && Geometry(m, pm) && Pool(k, m, free, lent) && r !in free && r in m
    requires Pool(k, m, free[r := Objects(k, m[r])], lent[r := {}]) && o in Objects(k, m[r])
    ensures !IsLent(lent, o) && forall s :: s in free ==> o !in free[s]
  {
    var free', lent' := free[r := Objects(k, m[r])], lent[r := {}];
    ObjectSpan(k, m, pm, free', lent', r, o);
    forall s | s in free ensures o !in free[s] && o !in lent[s] {
      assert SpanPool(k, m, free, lent, s);
      if o in Members(Objects(k, m[s])) { ObjectSpan(k, m, pm, free, lent, s, o); }
    }
  }

  lemma AddKeeps(k: Class, m: Spans, pm: PageMap, links: Links, links': Links, heads: map<SpanRef, Addr>, free: Chains,
                 lent: Lent, slots: seq<Slot>, stored: seq<seq<Addr>>, r: SpanRef, h: Addr)
    requires ClassOk(k) && Geometry(m, pm) && Pool(k, m, free, lent) && ChainsOk(links, heads, free)
    requires StoredOk(links, lent, k.move, slots, stored) && r !in free
    requires r in m && Pool(k, m, free[r := Objects(k, m[r])], lent[r := {}])
    requires AgreeOutside(links, links', Objects(k, m[r])) && ChainOf(links', h, Objects(k, m[r]))
    ensures ChainsOk(links', heads[r := h], free[r := Objects(k, m[r])])
    ensures StoredOk(links', lent[r := {}], k.move, slots, stored)
  {
    var objs := Objects(k, m[r]);
    var free', lent', heads' := free[r := objs], lent[r := {}], heads[r := h];
    forall o | o in objs ensures !IsLent(lent, o) && forall s :: s in free ==> o !in free[s] {
      NewObjectsAreNew(k, m, pm, free, lent, r, o);
    }
    forall s | s in free' ensures SpanChain(links', heads', free', s) {
      if s != r {
        assert SpanChain(links, heads, free, s);
        ChainSame(links, links', heads[s], free[s]);
      }
    }
    forall i | 0 <= i < |slots| ensures SlotOk(links', lent', k.move, slots[i], stored[i]) {
      assert SlotOk(links, lent, k.move, slots[i], stored[i]);
      ChainSame(links, links', slots[i].head, stored[i]);
      LentKept(lent, lent', stored[i]);
    }
  }

  lemma LentKept(lent: Lent, lent': Lent, objs: seq<Addr>)
    requires AllLent(lent, objs) && forall r :: r in lent && lent[r] != {} ==> r in lent' && lent'[r] == lent[r]
    ensures AllLent(lent', objs)
  {
    forall i | 0 <= i < |objs| ensures IsLent(lent', objs[i]) {
      assert IsLent(lent, objs[i]);
      var s :| s in lent && objs[i] in lent[s];
      assert s in lent' && objs[i] in lent'[s];
    }
  }

  /** The pool does not notice what the page heap does to other spans. */
  lemma PoolFrame(k: Class, m: Spans, m': Spans, free: Chains, lent: Lent)
    requires k.size > 0 && Pool(k, m, free, lent) && forall r :: r in free && r in m ==> r in m' && m'[r] == m[r]
    ensures Pool(k, m', free, lent)
  {
    forall r | r in free ensures SpanPool(k, m', free, lent, r) { assert SpanPool(k, m, free, lent, r); }
  }
}
