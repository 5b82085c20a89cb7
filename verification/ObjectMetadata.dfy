/** How the metadata span of a central-list span is sized, and which of its bytes
    belong to which object. */
module ObjectMetadata {
  import opened Common
  import opened ShiftArith
  import opened ObjectChains
  import opened MetaTable

  const HEAP_SHIFT: nat := 13
  const MAX_SIZE: int := 524288

  /** Count of trailing zero bits. */
  function Ctz(n: nat): nat
    requires n > 0
  {
    if n % 2 == 1 then 0 else 1 + Ctz(n / 2)
  }

  function AlignmentBits(size: nat): nat
    requires size > 0
  {
    if size > MAX_SIZE then HEAP_SHIFT else Ctz(size)
  }

  /** The shift under which objects of a size class are registered. */
  function MetaShift(size: nat): nat
    requires size > 0
  {
    if AlignmentBits(size) < HEAP_SHIFT then AlignmentBits(size) else HEAP_SHIFT
  }

  /** Heap pages of metadata for a span of `pages` heap pages. */
  function MetaPages(pages: int, bytes: int, a: nat): int { (pages * bytes + (Pow2(a) - 1)) / Pow2(a) }

  lemma {:induction false} CtzDivides(n: nat, a: nat)
    requires n > 0 && a <= Ctz(n)
    ensures n % Pow2(a) == 0
  {
    if a > 0 {
      CtzDivides(n / 2, a - 1);
      var h := Pow2(a - 1);
      DivMod(n / 2, h);
      assert n == 2 * (n / 2) == (n / 2 / h) * (2 * h);
      MultipleMod(n / 2 / h, 2 * h);
    }
  }

  /** A size class of at most MAX_SIZE bytes is a whole number of alignment units. */
  lemma SizeAligned(size: nat)
    requires 0 < size <= MAX_SIZE
    ensures size % Pow2(MetaShift(size)) == 0
  {
    CtzDivides(size, MetaShift(size));
  }

  lemma HeapPageAligned(a: nat)
    requires a <= HEAP_SHIFT
    ensures PAGE_SIZE % Pow2(a) == 0
  {
    Pow2At12();
    Pow2Add(a, HEAP_SHIFT - a);
    assert Pow2(13) == 2 * Pow2(12);
    MultipleMod(Pow2(HEAP_SHIFT - a), Pow2(a));
  }

  lemma ExactDivision(x: int, m: int)
    requires m > 0 && x % m == 0
    ensures x == x / m * m
  {
    DivMod(x, m);
  }

  /** The metadata span holds all the slots of the data span. */
  lemma MetaSpanSuffices(pages: int, bytes: int, a: nat)
    requires pages >= 0 && bytes > 0 && a <= HEAP_SHIFT
    ensures Offset(pages * PAGE_SIZE, a, bytes) <= MetaPages(pages, bytes, a) * PAGE_SIZE
  {
    hide Pow2;
    var m, u := Pow2(a), PAGE_SIZE / Pow2(a);
    HeapPageAligned(a);
    ExactDivision(PAGE_SIZE, m);
    assert pages * PAGE_SIZE == (pages * u) * m;
    MultipleMod(pages * u, m);
    assert Offset(pages * PAGE_SIZE, a, bytes) == (pages * u) * bytes;
    CeilDivBounds(pages * bytes, m);
    DivMono(0, PAGE_SIZE, m);
    MulMono(pages * bytes, MetaPages(pages, bytes, a) * m, u);
    assert (MetaPages(pages, bytes, a) * m) * u == MetaPages(pages, bytes, a) * (u * m);
    assert (pages * bytes) * u == (pages * u) * bytes;
  }

  /** The slots of an object that starts `x` bytes into its span. */
  lemma ObjectSlots(x: int, size: int, y: int, a: nat, bytes: int)
    requires x % Pow2(a) == 0 && size % Pow2(a) == 0 && x <= y < x + size && bytes > 0
    ensures Offset(x, a, bytes) <= Offset(y, a, bytes)
    ensures Offset(y, a, bytes) + bytes <= Offset(x + size, a, bytes)
  {
    hide Pow2;
    var m := Pow2(a);
    DivMono(x, y, m);
    MulMono(x / m, y / m, bytes);
    ExactDivision(x, m);
    ExactDivision(size, m);
    Distribute(x / m, size / m, m);
    MultipleMod(x / m + size / m, m);
    DivMod(y, m);
    if y / m >= (x + size) / m { MulMono((x + size) / m, y / m, m); }
    MulMono(y / m + 1, (x + size) / m, bytes);
    Distribute(y / m, 1, bytes);
  }

  /** A span carved into objects and registered with its metadata span. */
  ghost predicate MetaRegistered(t: Table, base: int, pages: int, metaBase: int, size: nat, bytes: int) {
    && 0 < size <= MAX_SIZE && pages > 0
    && Mapped(t, base, pages * PAGE_SIZE, metaBase, MetaShift(size), bytes)
  }

  function ObjectCount(pages: int, size: int): int
    requires size > 0
  {
    pages * PAGE_SIZE / size
  }

  /** The metadata bytes of object `o`. */
  function MetaStart(base: int, metaBase: int, size: nat, bytes: int, o: Addr): int
    requires size > 0
  {
    metaBase + Offset(o - base, MetaShift(size), bytes)
  }

  lemma CarvedAligned(base: Addr, size: nat, n: nat, o: Addr)
    requires 0 < size <= MAX_SIZE && o in Carved(base, size, n)
    ensures (o - base) % Pow2(MetaShift(size)) == 0
  {
    var k := CarvedMember(base, size, n, o);
    var m := Pow2(MetaShift(size));
    SizeAligned(size);
    ExactDivision(size, m);
    assert o - base == k * (size / m * m) == (k * (size / m)) * m;
    MultipleMod(k * (size / m), m);
  }

  /** Every address inside a carved object resolves to the object's own metadata, and
      that lies inside the metadata span. */
  lemma ObjectOwnsMetadata(t: Table, base: int, pages: int, metaBase: int, size: nat, bytes: int, o: Addr, p: int)
    requires MetaRegistered(t, base, pages, metaBase, size, bytes)
    requires ObjectCount(pages, size) >= 0 && o in Carved(base, size, ObjectCount(pages, size)) && o <= p < o + size
    ensures MetaStart(base, metaBase, size, bytes, o) <= MetaPtr(t, p, bytes)
    ensures MetaPtr(t, p, bytes) + bytes <= MetaStart(base, metaBase, size, bytes, o + size)
    ensures metaBase <= MetaPtr(t, p, bytes)
    ensures MetaPtr(t, p, bytes) + bytes <= metaBase + MetaPages(pages, bytes, MetaShift(size)) * PAGE_SIZE
  {
    hide Offset, MetaPtr, MetaPages, MetaShift, Pow2;
    var a := MetaShift(size);
    CarvedAligned(base, size, ObjectCount(pages, size), o);
    CarvedInside(base, size, pages * PAGE_SIZE, o);
    SizeAligned(size);
    LookupLinear(t, base, pages * PAGE_SIZE, metaBase, a, bytes, p);
    ObjectSlots(o - base, size, p - base, a, bytes);
    ShiftBound(size);
    MetaSpanSuffices(pages, bytes, a);
    OffsetMono(o + size - base, pages * PAGE_SIZE, a, bytes);
    OffsetBound(o - base, pages * PAGE_SIZE, a, bytes);
  }

  lemma ShiftBound(size: nat)
    requires size > 0
    ensures MetaShift(size) <= HEAP_SHIFT
  {
  }

  lemma OffsetMono(x: int, y: int, a: nat, bytes: int)
    requires x <= y && bytes > 0
    ensures Offset(x, a, bytes) <= Offset(y, a, bytes)
  {
    DivMono(x, y, Pow2(a));
    MulMono(x / Pow2(a), y / Pow2(a), bytes);
  }

  /** Different objects have disjoint metadata. */
  lemma ObjectsApart(base: int, metaBase: int, size: nat, bytes: int, n: nat, o: Addr, o': Addr)
    requires 0 < size && bytes > 0 && o in Carved(base, size, n) && o' in Carved(base, size, n) && o < o'
    ensures MetaStart(base, metaBase, size, bytes, o + size) <= MetaStart(base, metaBase, size, bytes, o')
  {
    var k := CarvedMember(base, size, n, o);
    var k' := CarvedMember(base, size, n, o');
    if k >= k' { MulMono(k', k, size); }
    MulMono(k + 1, k', size);
    Distribute(k, 1, size);
    OffsetMono(o + size - base, o' - base, MetaShift(size), bytes);
  }
}
