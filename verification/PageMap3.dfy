/** The three-level radix tree from page numbers to span pointers: 12 bits at each of the
    two interior levels and 11 at the leaves. */
module PageMap3s {
  import opened Common

  const LEAF: int := 2048
  const INTERIOR: int := 4096
  const TOP: int := 8388608
  const KEYS: int := 34359738368

  // A pointer is a number, with 0 for NULL.
  type Leaf = seq<nat>
  type Node = seq<Option<Leaf>>
  type Root = seq<Option<Node>>

  function I1(k: int): int { k / TOP }

  function I2(k: int): int { k / LEAF % INTERIOR }

  function I3(k: int): int { k % LEAF }

  predicate NodeOk(n: Node) { |n| == INTERIOR && forall i :: 0 <= i < INTERIOR && n[i].Some? ==> |n[i].value| == LEAF }

  predicate RootOk(r: Root) { |r| == INTERIOR && forall i :: 0 <= i < INTERIOR && r[i].Some? ==> NodeOk(r[i].value) }

  /** A key below 2^35 is its three indices. */
  lemma Indices(k: int)
    requires 0 <= k < KEYS
    ensures 0 <= I1(k) < INTERIOR && 0 <= I2(k) < INTERIOR && 0 <= I3(k) < LEAF
    ensures k == (I1(k) * INTERIOR + I2(k)) * LEAF + I3(k) && k / LEAF == I1(k) * INTERIOR + I2(k)
  {
    assert k / TOP == k / LEAF / INTERIOR;
  }

  /** There is a leaf for `k`. */
  predicate Has(r: Root, k: int) {
    0 <= k < KEYS && RootOk(r) && 0 <= I1(k) < INTERIOR && r[I1(k)].Some? && r[I1(k)].value[I2(k)].Some?
  }

  /** The map the tree stands for; `get` computes it. */
  function At(r: Root, k: int): nat {
    if Has(r, k) then r[I1(k)].value[I2(k)].value[I3(k)] else 0
  }

  function WithValue(r: Root, k: int, v: nat): Root
    requires Has(r, k)
  {
    r[I1(k) := Some(r[I1(k)].value[I2(k) := Some(r[I1(k)].value[I2(k)].value[I3(k) := v])])]
  }

  /** Writing one value is a map update. */
  lemma SetIsUpdate(r: Root, k: int, v: nat)
    requires Has(r, k)
    ensures RootOk(WithValue(r, k, v))
    ensures forall j :: Has(WithValue(r, k, v), j) <==> Has(r, j)
    ensures forall j :: At(WithValue(r, k, v), j) == if j == k then v else At(r, j)
  {
    var r' := WithValue(r, k, v);
    assert NodeOk(r[I1(k)].value);
    Indices(k);
    hide I1, I2, I3;
    forall j | 0 <= j < KEYS && j != k ensures I1(j) != I1(k) || I2(j) != I2(k) || I3(j) != I3(k) { Indices(j); }
    forall j ensures Has(r', j) <==> Has(r, j) { if 0 <= j < KEYS { Indices(j); } }
    forall j ensures At(r', j) == if j == k then v else At(r, j) { if 0 <= j < KEYS { Indices(j); } }
  }

  function EmptyNode(): Node { seq(INTERIOR, _ => None) }

  function EmptyLeaf(): Leaf { seq(LEAF, _ => 0) }

  function WithNode(r: Root, i: int): Root
    requires 0 <= i < |r|
  {
    r[i := Some(EmptyNode())]
  }

  lemma NodeAdded(r: Root, i: int)
    requires RootOk(r) && 0 <= i < INTERIOR && r[i].None?
    ensures RootOk(WithNode(r, i))
    ensures forall j :: Has(WithNode(r, i), j) <==> Has(r, j)
    ensures forall j :: At(WithNode(r, i), j) == At(r, j)
  {
    hide I1, I2, I3;
    forall j ensures Has(WithNode(r, i), j) <==> Has(r, j) { if 0 <= j < KEYS { Indices(j); } }
  }

  function WithLeaf(r: Root, i: int, i': int): Root
    requires 0 <= i < |r| && r[i].Some? && 0 <= i' < |r[i].value|
  {
    r[i := Some(r[i].value[i' := Some(EmptyLeaf())])]
  }

  lemma LeafAdded(r: Root, k: int)
    requires RootOk(r) && 0 <= k < KEYS && 0 <= I1(k) < INTERIOR && 0 <= I2(k) < INTERIOR
    requires r[I1(k)].Some? && |r[I1(k)].value| == INTERIOR && r[I1(k)].value[I2(k)].None?
    ensures var r' := WithLeaf(r, I1(k), I2(k));
      && RootOk(r')
      && (forall j :: Has(r', j) <==> Has(r, j) || (0 <= j < KEYS && j / LEAF == k / LEAF))
      && (forall j :: At(r', j) == At(r, j))
  {
    var r' := WithLeaf(r, I1(k), I2(k));
    assert NodeOk(r[I1(k)].value);
    Indices(k);
    hide I1, I2, I3;
    forall j ensures Has(r', j) <==> Has(r, j) || (0 <= j < KEYS && j / LEAF == k / LEAF) {
      if 0 <= j < KEYS { Indices(j); }
    }
    forall j ensures At(r', j) == At(r, j) { if 0 <= j < KEYS { Indices(j); } }
  }

  /** The last key of a range, as the source computes it in unsigned arithmetic. */
  function LastKey(start: int, n: int): int { (start + n - 1) % WORD }

  class PageMap3 {
    var root: Root

    ghost predicate Valid()
      reads this
    {
      RootOk(root)
    }

    constructor ()
      ensures Valid() && forall k :: At(root, k) == 0 && !Has(root, k)
    {
      root := seq(INTERIOR, _ => None);
    }

    method Get(k: int) returns (v: nat)
      requires Valid() && 0 <= k < WORD
      ensures v == At(root, k)
    {
      if k / KEYS > 0 { return 0; }
      Indices(k);
      var i1, i2, i3 := I1(k), I2(k), I3(k);
      if root[i1].None? || root[i1].value[i2].None? { return 0; }
      v := root[i1].value[i2].value[i3];
    }

    /** A caller must have ensured the key. */
    method Set(k: int, v: nat)
      requires Valid() && Has(root, k)
      modifies this
      ensures Valid() && forall j :: At(root, j) == if j == k then v else old(At(root, j))
      ensures forall j :: Has(root, j) <==> old(Has(root, j))
    {
      SetIsUpdate(root, k, v);
      Indices(k);
      root := WithValue(root, k, v);
    }

    /** Make leaves for a range of keys.  No value changes, even when an allocation fails
        on the way. */
    method Ensure(start: int, n: int) returns (ok: bool, ghost refused: bool)
      requires Valid() && 0 <= start < WORD && 0 <= n < WORD
      modifies this
      ensures Valid() && (forall k :: At(root, k) == old(At(root, k)))
      ensures forall k :: old(Has(root, k)) ==> Has(root, k)
      ensures ok ==> forall k :: start <= k <= LastKey(start, n) ==> Has(root, k)
      ensures ok <==> !refused && (start > LastKey(start, n) || LastKey(start, n) < KEYS)
    {
      hide I1, I2, I3, RootOk, At, Has, WithNode, WithLeaf;
      refused := false;
      var key, last := start, LastKey(start, n);
      while key <= last
        invariant start <= key && Valid() && !refused && (key > start ==> key % LEAF == 0 && key <= KEYS)
        invariant (forall k :: At(root, k) == old(At(root, k))) && (forall k :: old(Has(root, k)) ==> Has(root, k))
        invariant forall k :: start <= k < key ==> Has(root, k)
        decreases last - key
      {
        TooLarge(key);
        if I1(key) >= INTERIOR { return false, refused; }
        Indices(key);
        Sizes(root, key);
        if root[I1(key)].None? {
          var granted: bool := *;
          if !granted { return false, true; }
          NodeAdded(root, I1(key));
          NodeThere(root, key);
          root := WithNode(root, I1(key));
        }
        Sizes(root, key);
        if root[I1(key)].value[I2(key)].None? {
          var granted: bool := *;
          if !granted { return false, true; }
          LeafAdded(root, key);
          root := WithLeaf(root, I1(key), I2(key));
        } else {
          LeafThere(root, key);
        }
        LeafCovers(root, key);
        key := (key / LEAF + 1) * LEAF;
      }
      ok := true;
    }

    /** The value at the least key from `k` on that has one, or NULL. */
    method Next(k: int) returns (v: nat)
      requires Valid() && 0 <= k < WORD
      ensures v == 0 ==> NoValue(root, k, KEYS)
      ensures v != 0 ==> exists j :: k <= j < KEYS && NoValue(root, k, j) && At(root, j) == v
    {
      hide I1, I2, I3, RootOk, At, Has;
      var p := k;
      while p < KEYS
        invariant k <= p && (p > k ==> p <= KEYS) && (k < KEYS ==> NoValue(root, k, p))
        decreases KEYS - p
      {
        Indices(p);
        Sizes(root, p);
        var i1 := I1(p);
        if root[i1].None? {
          NoNode(root, p);
          NoValueJoin(root, k, p, (i1 + 1) * TOP);
          p := (i1 + 1) * TOP;
        } else {
          var leaf := root[i1].value[I2(p)];
          if leaf.Some? {
            LeafThere(root, p);
            LeafValues(root, p);
            var i3 := I3(p);
            while i3 < LEAF
              invariant I3(p) <= i3 <= LEAF && forall i :: I3(p) <= i < i3 ==> leaf.value[i] == 0
            {
              if leaf.value[i3] != 0 {
                LeafPrefix(root, p, i3);
                NoValueJoin(root, k, p, p / LEAF * LEAF + i3);
                return leaf.value[i3];
              }
              i3 := i3 + 1;
            }
            LeafPrefix(root, p, LEAF);
          } else {
            NoLeaf(root, p);
          }
          NoValueJoin(root, k, p, (p / LEAF + 1) * LEAF);
          p := (p / LEAF + 1) * LEAF;
        }
      }
      v := 0;
    }
  }

  lemma TooLarge(key: int)
    requires 0 <= key < WORD
    ensures I1(key) >= INTERIOR <==> key >= KEYS
  {
  }

  lemma Sizes(r: Root, k: int)
    requires RootOk(r) && 0 <= I1(k) < INTERIOR
    ensures |r| == INTERIOR && (r[I1(k)].Some? ==> |r[I1(k)].value| == INTERIOR)
  {
    if r[I1(k)].Some? { assert NodeOk(r[I1(k)].value); }
  }

  lemma NodeThere(r: Root, k: int)
    requires 0 <= I1(k) < |r|
    ensures WithNode(r, I1(k))[I1(k)].Some?
  {
  }

  lemma LeafThere(r: Root, k: int)
    requires RootOk(r) && 0 <= k < KEYS && 0 <= I1(k) < INTERIOR && 0 <= I2(k) < INTERIOR
    requires r[I1(k)].Some? && |r[I1(k)].value| == INTERIOR && r[I1(k)].value[I2(k)].Some?
    ensures Has(r, k)
  {
  }

  /** A leaf serves all keys of its block. */
  lemma LeafCovers(r: Root, k: int)
    requires Has(r, k)
    ensures forall j :: 0 <= j && j / LEAF == k / LEAF ==> Has(r, j)
  {
    Indices(k);
    forall j | 0 <= j && j / LEAF == k / LEAF ensures Has(r, j) {
      assert j < KEYS;
      Indices(j);
      assert I1(j) == I1(k) && I2(j) == I2(k);
    }
  }

  /** No key from `lo` up to but not including `hi` has a value. */
  ghost predicate NoValue(r: Root, lo: int, hi: int) { forall j :: lo <= j < hi ==> At(r, j) == 0 }

  lemma NoValueJoin(r: Root, a: int, b: int, c: int)
    requires NoValue(r, a, b) && NoValue(r, b, c)
    ensures NoValue(r, a, c)
  {
  }

  lemma NoNode(r: Root, k: int)
    requires RootOk(r) && 0 <= k < KEYS && 0 <= I1(k) < INTERIOR && r[I1(k)].None?
    ensures NoValue(r, k, (I1(k) + 1) * TOP) && k < (I1(k) + 1) * TOP <= KEYS
  {
    forall j | k <= j < (I1(k) + 1) * TOP ensures At(r, j) == 0 { assert I1(j) == I1(k); }
  }

  lemma NoLeaf(r: Root, k: int)
    requires RootOk(r) && 0 <= k < KEYS && 0 <= I1(k) < |r| && r[I1(k)].Some?
    requires 0 <= I2(k) < |r[I1(k)].value| && r[I1(k)].value[I2(k)].None?
    ensures NoValue(r, k, (k / LEAF + 1) * LEAF)
  {
    forall j | k <= j < (k / LEAF + 1) * LEAF ensures At(r, j) == 0 {
      assert j / LEAF == k / LEAF;
      if Has(r, j) { LeafCovers(r, j); }
    }
  }

  lemma LeafValues(r: Root, k: int)
    requires Has(r, k)
    ensures 0 <= I1(k) < |r| && r[I1(k)].Some? && 0 <= I2(k) < |r[I1(k)].value| && r[I1(k)].value[I2(k)].Some?
    ensures |r[I1(k)].value[I2(k)].value| == LEAF
  {
    Indices(k);
    assert NodeOk(r[I1(k)].value);
  }

  /** The values of a leaf, read off at the keys it serves. */
  lemma LeafPrefix(r: Root, k: int, n: int)
    requires Has(r, k) && I3(k) <= n <= LEAF && 0 <= I1(k) < |r| && r[I1(k)].Some?
    requires 0 <= I2(k) < |r[I1(k)].value| && r[I1(k)].value[I2(k)].Some? && |r[I1(k)].value[I2(k)].value| == LEAF
    requires forall i :: I3(k) <= i < n ==> r[I1(k)].value[I2(k)].value[i] == 0
    ensures NoValue(r, k, k / LEAF * LEAF + n)
    ensures n < LEAF ==> k <= k / LEAF * LEAF + n < KEYS && At(r, k / LEAF * LEAF + n) == r[I1(k)].value[I2(k)].value[n]
    ensures k / LEAF * LEAF + LEAF == (k / LEAF + 1) * LEAF <= KEYS
  {
    Indices(k);
    LeafCovers(r, k);
    var base := k / LEAF * LEAF;
    forall j | k <= j < base + n ensures At(r, j) == 0 { SameLeaf(k, j); }
    if n < LEAF { SameLeaf(k, base + n); }
  }

  lemma SameLeaf(k: int, j: int)
    requires 0 <= k < KEYS && k / LEAF * LEAF <= j < k / LEAF * LEAF + LEAF
    ensures j / LEAF == k / LEAF && I1(j) == I1(k) && I2(j) == I2(k) && I3(j) == j - k / LEAF * LEAF && 0 <= j < KEYS
  {
  }

  /** Apart from refusals, Ensure succeeds exactly on ranges of valid page numbers, with two
      exceptions: an empty range at page 0 fails, because its last key wraps around, and a
      range that runs past the last word succeeds with nothing ensured. */
  lemma EnsureExact(start: int, n: int)
    requires 0 <= start < WORD && 0 <= n < WORD
    ensures (start > LastKey(start, n) || LastKey(start, n) < KEYS) <==>
      if n == 0 then start > 0 else start + n <= KEYS || start + n > WORD
  {
    var x := start + n - 1;
    assert LastKey(start, n) == if x < 0 then WORD - 1 else if x < WORD then x else x - WORD;
  }

  lemma EnsureNothingAtZero()
    ensures 0 <= LastKey(0, 0) && LastKey(0, 0) >= KEYS
  {
  }

  /** Two pages from the last word on: the range counts as empty, so Ensure succeeds, and
      neither page number is valid. */
  lemma EnsureWraps(r: Root)
    ensures WORD - 1 > LastKey(WORD - 1, 2) && !Has(r, WORD - 1) && !Has(r, WORD)
  {
  }
}
