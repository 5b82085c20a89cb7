/** Chains of free objects linked through their own first word, and the objects a
    span is carved into. */
module ObjectChains {
  import opened Common
  import opened ShiftArith

  type Addr = int

  const NULL: Addr := 0

  type Links = map<Addr, Addr>

  function Next(links: Links, o: Addr): Addr { if o in links then links[o] else NULL }

  function Head(s: seq<Addr>): Addr { if s == [] then NULL else s[0] }

  /** The word of the `i`-th object leads to the next one, or to NULL at the end. */
  ghost predicate LinkOk(links: Links, s: seq<Addr>, i: int)
    requires 0 <= i < |s|
  {
    s[i] != NULL && Next(links, s[i]) == (if i + 1 < |s| then s[i + 1] else NULL)
  }

  /** Following the words from `head` visits exactly `s`. */
  ghost predicate ChainOf(links: Links, head: Addr, s: seq<Addr>) {
    head == Head(s) && forall i :: 0 <= i < |s| ==> LinkOk(links, s, i)
  }

  function Members(s: seq<Addr>): set<Addr> { set i | 0 <= i < |s| :: s[i] }

  lemma ChainFrame(links: Links, head: Addr, s: seq<Addr>, o: Addr, v: Addr)
    requires ChainOf(links, head, s) && o !in s
    ensures ChainOf(links[o := v], head, s)
  {
    ChainSame(links, links[o := v], head, s);
  }

  lemma ChainSame(links: Links, links': Links, head: Addr, s: seq<Addr>)
    requires ChainOf(links, head, s) && forall i :: 0 <= i < |s| ==> Next(links', s[i]) == Next(links, s[i])
    ensures ChainOf(links', head, s)
  {
    forall i | 0 <= i < |s| ensures LinkOk(links', s, i) { assert LinkOk(links, s, i); }
  }

  lemma ChainEnd(links: Links, head: Addr, s: seq<Addr>)
    requires ChainOf(links, head, s)
    ensures head == NULL <==> s == []
  {
    if s != [] { assert LinkOk(links, s, 0); }
  }

  lemma ChainTail(links: Links, head: Addr, s: seq<Addr>)
    requires ChainOf(links, head, s) && s != []
    ensures head != NULL && ChainOf(links, Next(links, head), s[1..])
  {
    assert LinkOk(links, s, 0);
    forall i | 0 <= i < |s| - 1 ensures LinkOk(links, s[1..], i) { assert LinkOk(links, s, i + 1); }
  }

  lemma ChainPush(links: Links, head: Addr, s: seq<Addr>, o: Addr)
    requires ChainOf(links, head, s) && o != NULL && o !in s
    ensures ChainOf(links[o := head], o, [o] + s)
  {
    var t, links' := [o] + s, links[o := head];
    forall i | 0 <= i < |t| ensures LinkOk(links', t, i) {
      if i > 0 { assert LinkOk(links, s, i - 1); }
    }
  }

  /** Cutting a chain after its first `n` objects. */
  lemma ChainCut(links: Links, head: Addr, s: seq<Addr>, n: int)
    requires ChainOf(links, head, s) && NoRepeats(s) && 1 <= n <= |s|
    ensures ChainOf(links[s[n - 1] := NULL], head, s[..n])
    ensures ChainOf(links[s[n - 1] := NULL], Head(s[n..]), s[n..])
    ensures Next(links, s[n - 1]) == Head(s[n..])
  {
    var links' := links[s[n - 1] := NULL];
    assert LinkOk(links, s, n - 1);
    forall i | 0 <= i < n ensures LinkOk(links', s[..n], i) { assert LinkOk(links, s, i); }
    forall i | 0 <= i < |s| - n ensures LinkOk(links', s[n..], i) { assert LinkOk(links, s, n + i); }
  }

  /** SLL_PushRange: a chain put in front of another. */
  lemma ChainJoin(links: Links, h: Addr, s: seq<Addr>, h': Addr, s': seq<Addr>)
    requires ChainOf(links, h, s) && ChainOf(links, h', s') && s' != [] && NoRepeats(s')
    requires forall i :: 0 <= i < |s| ==> s[i] !in s'
    ensures ChainOf(links[s'[|s'| - 1] := h], h', s' + s)
  {
    var t, links' := s' + s, links[s'[|s'| - 1] := h];
    forall i | 0 <= i < |t| ensures LinkOk(links', t, i) {
      if i < |s'| {
        assert LinkOk(links, s', i);
      } else {
        assert LinkOk(links, s, i - |s'|);
        assert s[i - |s'|] !in s';
      }
    }
  }

  // ------------------------------------------------------------------ objects

  /** The objects of a span of `n` objects of `size` bytes, in address order. */
  function Carved(base: Addr, size: int, n: nat): seq<Addr> { seq(n, k requires 0 <= k < n => base + k * size) }

  lemma CarvedMember(base: Addr, size: int, n: nat, o: Addr) returns (k: int)
    requires o in Carved(base, size, n)
    ensures 0 <= k < n && o == base + k * size
  {
    k :| 0 <= k < n && Carved(base, size, n)[k] == o;
  }

  lemma CarvedDistinct(base: Addr, size: int, n: nat)
    requires size > 0
    ensures NoRepeats(Carved(base, size, n))
  {
    forall i, j | 0 <= i < j < n ensures Carved(base, size, n)[i] != Carved(base, size, n)[j] {
      MulMono(i + 1, j, size);
    }
  }

  /** Every object lies whole inside the span. */
  lemma CarvedInside(base: Addr, size: int, bytes: int, o: Addr)
    requires size > 0 && bytes >= 0 && o in Carved(base, size, bytes / size)
    ensures base <= o && o + size <= base + bytes
  {
    var k := CarvedMember(base, size, bytes / size, o);
    DivMod(bytes, size);
    MulMono(0, k, size);
    MulMono(k + 1, bytes / size, size);
  }

  lemma {:induction false} MembersCount(s: seq<Addr>)
    requires NoRepeats(s)
    ensures |Members(s)| == |s|
  {
    if s != [] {
      var t := s[..|s| - 1];
      MembersCount(t);
      assert s[|s| - 1] !in Members(t);
      assert Members(s) == Members(t) + {s[|s| - 1]};
    }
  }

  // ------------------------------------------------------------------- totals

  type Chains = map<nat, seq<Addr>>

  /** The number of objects in all chains. */
  ghost function Total(m: Chains): nat
    decreases |m|
  {
    if m == map[] then 0 else
      var r :| r in m;
      |m[r]| + Total(m - {r})
  }

  lemma {:induction false} TotalDrop(m: Chains, r: nat)
    requires r in m
    ensures Total(m) == |m[r]| + Total(m - {r})
    decreases |m|
  {
    var c :| c in m && Total(m) == |m[c]| + Total(m - {c});
    if c != r {
      TotalDrop(m - {c}, r);
      TotalDrop(m - {r}, c);
      assert m - {c} - {r} == m - {r} - {c};
    }
  }

  lemma TotalPut(m: Chains, r: nat, s: seq<Addr>)
    ensures Total(m[r := s]) == |s| + Total(m - {r})
  {
    TotalDrop(m[r := s], r);
    assert m[r := s] - {r} == m - {r};
  }
}
