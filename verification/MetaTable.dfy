/** The metadata page table: one entry per 4096-byte page, holding the address of
    the page's metadata and the alignment shift of the objects on it; and the
    functions that set and get metadata through it. */
module MetaTable {
  import opened Common
  import opened ShiftArith

  const PAGE: int := 4096

  type Byte = bv8

  /** Pages not in the map have the entry 0. */
  type Table = map<int, int>

  type Bytes = map<int, Byte>

  function EntryAt(t: Table, page: int): int { if page in t then t[page] else 0 }

  /** Metadata address above, shift in the low byte, in a 64-bit word. */
  function Entry(meta: int, a: int): int { (meta * 256) % WORD + a }

  function EntryMeta(e: int): int { e / 256 }

  function EntryShift(e: int): nat { e % 256 }

  function Wrap(x: int): int { x % WORD }

  /** How far into the metadata an address `x` bytes into its range is. */
  function Offset(x: int, a: nat, bytes: int): int { x / Pow2(a) * bytes }

  /** The entry of page `i` of a range whose metadata starts at `metaptr`. */
  function PageEntry(metaptr: int, i: int, a: nat, bytes: int): int {
    Entry(if metaptr == 0 then 0 else metaptr + Offset(i * PAGE, a, bytes), a)
  }

  ghost predicate TableSet(t: Table, t': Table, page: int, count: int, metaptr: int, a: nat, bytes: int) {
    forall q :: EntryAt(t', q) ==
      if page <= q < page + count then PageEntry(metaptr, q - page, a, bytes) else EntryAt(t, q)
  }

  lemma OneMoreEntry(t: Table, t': Table, page: int, i: int, metaptr: int, a: nat, bytes: int)
    requires TableSet(t, t', page, i, metaptr, a, bytes) && i >= 0
    ensures TableSet(t, t'[page + i := PageEntry(metaptr, i, a, bytes)], page, i + 1, metaptr, a, bytes)
  {
    hide PageEntry;
    var next := t'[page + i := PageEntry(metaptr, i, a, bytes)];
    forall q ensures EntryAt(next, q) ==
      if page <= q < page + i + 1 then PageEntry(metaptr, q - page, a, bytes) else EntryAt(t, q)
    {
      if q == page + i { assert q - page == i; } else { assert EntryAt(next, q) == EntryAt(t', q); }
    }
  }

  function PageOf(p: int): int { p / PAGE }

  function PageStart(p: int): int { p / PAGE * PAGE }

  /** metaget and metaset: the slot of address `p`. */
  function MetaPtr(t: Table, p: int, bytes: int): int {
    var e := EntryAt(t, PageOf(p));
    Wrap(EntryMeta(e) + Offset(p - PageStart(p), EntryShift(e), bytes))
  }

  /** metaget_base: the slot of `p` from the entry of another address' page, in
      unsigned arithmetic. */
  function MetaPtrBase(e: int, p: int, prior: int, bytes: int): int {
    Wrap(EntryMeta(e) + Offset(Wrap(p - PageStart(prior)), EntryShift(e), bytes))
  }

  /** metaset_fast: likewise with a signed page offset and a given shift. */
  function MetaPtrFast(e: int, a: nat, p: int, prior: int, bytes: int): int {
    Wrap(EntryMeta(e) + Offset(p - PageStart(prior), a, bytes))
  }

  // -------------------------------------------------------------- a set range

  /** A table range as the allocator sets it up: page-aligned, non-null metadata, all
      addresses well inside a word. */
  ghost predicate Mapped(t: Table, start: int, size: int, base: int, a: nat, bytes: int) {
    && start >= 0 && size >= 0 && start % PAGE == 0 && size % PAGE == 0 && a < 64 && bytes > 0 && base > 0
    && base + size * bytes < 0x100_0000_0000_0000
    && forall i :: 0 <= i < size / PAGE ==> EntryAt(t, PageOf(start) + i) == PageEntry(base, i, a, bytes)
  }

  lemma EntryParts(meta: int, a: int)
    requires 0 <= meta < 0x100_0000_0000_0000 && 0 <= a < 256
    ensures EntryMeta(Entry(meta, a)) == meta && EntryShift(Entry(meta, a)) == a
  {
  }

  lemma QuotientBound(x: int, m: int)
    requires 0 <= x && m > 0
    ensures 0 <= x / m <= x
  {
    DivMod(x, m);
    DivMono(0, x, m);
    MulMono(1, m, x / m);
  }

  lemma OffsetBound(x: int, size: int, a: nat, bytes: int)
    requires 0 <= x <= size && bytes > 0
    ensures 0 <= Offset(x, a, bytes) <= size * bytes
  {
    QuotientBound(x, Pow2(a));
    ScaleBound(x / Pow2(a), size, bytes);
  }

  lemma ScaleBound(q: int, size: int, bytes: int)
    requires 0 <= q <= size && bytes > 0
    ensures 0 <= q * bytes <= size * bytes
  {
    MulMono(q, size, bytes);
  }

  /** A page and an offset in it contribute separately. */
  lemma OffsetSplit(i: int, off: int, a: nat, bytes: int)
    requires 0 <= off < PAGE
    ensures Offset(i * PAGE, a, bytes) + Offset(off, a, bytes) == Offset(i * PAGE + off, a, bytes)
  {
    PageSplit(i, off, a);
    Distribute(i * PAGE / Pow2(a), off / Pow2(a), bytes);
  }

  /** Address `p` of a range that starts on a page boundary, as page and offset. */
  lemma PageParts(start: int, size: int, p: int)
    requires start % PAGE == 0 && size % PAGE == 0 && start <= p < start + size
    ensures var i := PageOf(p) - PageOf(start);
      0 <= i < size / PAGE && PageStart(p) - start == i * PAGE && 0 <= p - PageStart(p) < PAGE
  {
  }

  /** The entry of any page of a mapped range gives back the metadata address of that
      page and the shift. */
  lemma MappedEntry(t: Table, start: int, size: int, base: int, a: nat, bytes: int, p: int)
    requires Mapped(t, start, size, base, a, bytes) && start <= p < start + size
    ensures var e := EntryAt(t, PageOf(p));
      EntryMeta(e) == base + Offset(PageStart(p) - start, a, bytes) && EntryShift(e) == a
  {
    hide Offset, EntryMeta, EntryShift, Entry;
    PageParts(start, size, p);
    var i := PageOf(p) - PageOf(start);
    assert EntryAt(t, PageOf(start) + i) == PageEntry(base, i, a, bytes);
    OffsetBound(i * PAGE, size, a, bytes);
    EntryParts(base + Offset(i * PAGE, a, bytes), a);
  }

  /** Lookup is linear across the pages of a range. */
  lemma LookupLinear(t: Table, start: int, size: int, base: int, a: nat, bytes: int, p: int)
    requires Mapped(t, start, size, base, a, bytes) && start <= p < start + size
    ensures MetaPtr(t, p, bytes) == base + Offset(p - start, a, bytes)
    ensures base <= MetaPtr(t, p, bytes) <= base + size * bytes
  {
    hide Offset, EntryMeta, EntryShift, EntryAt;
    PageParts(start, size, p);
    MappedEntry(t, start, size, base, a, bytes, p);
    OffsetSplit(PageOf(p) - PageOf(start), p - PageStart(p), a, bytes);
    OffsetBound(p - start, size, a, bytes);
  }

  /** After set_metapagetable_entries over a page-aligned range, the range is mapped. */
  lemma SetIsMapped(t: Table, t': Table, start: int, size: int, base: int, a: nat, bytes: int)
    requires TableSet(t, t', PageOf(start), size / PAGE, base, a, bytes)
    requires start >= 0 && size >= 0 && start % PAGE == 0 && size % PAGE == 0 && a < 64 && bytes > 0 && base > 0
    requires base + size * bytes < 0x100_0000_0000_0000
    ensures Mapped(t', start, size, base, a, bytes)
  {
  }

  // ------------------------------------------------- the faster address forms

  lemma PageStartAligned(k: int, a: nat)
    requires a <= 12
    ensures (k * PAGE) % Pow2(a) == 0
  {
    Pow2At12();
    Pow2Add(a, 12 - a);
    hide Pow2;
    MultipleMod(k * Pow2(12 - a), Pow2(a));
    Regroup(k, Pow2(12 - a), Pow2(a));
  }

  lemma Regroup(x: int, y: int, z: int)
    ensures (x * y) * z == x * (z * y)
  {
  }

  /** Offsets add up exactly when the two roundings do not carry; otherwise they fall
      one slot short. */
  lemma OffsetSumExact(x: int, y: int, a: nat, bytes: int)
    requires bytes > 0
    ensures Offset(x, a, bytes) + Offset(y, a, bytes) == Offset(x + y, a, bytes) <==>
      x % Pow2(a) + y % Pow2(a) < Pow2(a)
    ensures Offset(x, a, bytes) + Offset(y, a, bytes) in {Offset(x + y, a, bytes), Offset(x + y, a, bytes) - bytes}
  {
    var m := Pow2(a);
    FloorSumExact(x, y, m);
    FloorSumNear(x, y, m);
    Distribute(x / m, y / m, bytes);
    Distribute((x + y) / m, -1, bytes);
  }

  lemma FloorSumNear(x: int, y: int, d: int)
    requires d > 0
    ensures x / d + y / d == (x + y) / d || x / d + y / d == (x + y) / d - 1
  {
    DivMod(x, d);
    DivMod(y, d);
    var q := x / d + y / d;
    Distribute(x / d, y / d, d);
    Distribute(q, 1, d);
    if x % d + y % d < d { DivIs(x + y, d, q); } else { DivIs(x + y, d, q + 1); }
  }

  /** metaset_fast finds the slot from any other page of the range, in either
      direction, exactly when the two roundings do not carry. */
  lemma FastExact(t: Table, start: int, size: int, base: int, a: nat, bytes: int, p: int, prior: int)
    requires Mapped(t, start, size, base, a, bytes) && start <= p < start + size && start <= prior < start + size
    ensures MetaPtrFast(EntryAt(t, PageOf(prior)), a, p, prior, bytes) == MetaPtr(t, p, bytes) <==>
      (PageStart(prior) - start) % Pow2(a) + (p - PageStart(prior)) % Pow2(a) < Pow2(a)
  {
    hide Offset, EntryMeta, EntryShift, EntryAt, MetaPtr, Pow2;
    MappedEntry(t, start, size, base, a, bytes, prior);
    LookupLinear(t, start, size, base, a, bytes, p);
    OffsetSumExact(PageStart(prior) - start, p - PageStart(prior), a, bytes);
    MulMono(1, size, bytes);
  }

  /** So it always does for shifts up to the page size. */
  lemma FastAgrees(t: Table, start: int, size: int, base: int, a: nat, bytes: int, p: int, prior: int)
    requires Mapped(t, start, size, base, a, bytes) && start <= p < start + size && start <= prior < start + size
    requires a <= 12
    ensures MetaPtrFast(EntryAt(t, PageOf(prior)), a, p, prior, bytes) == MetaPtr(t, p, bytes)
  {
    PageParts(start, size, prior);
    PageStartAligned(PageOf(prior) - PageOf(start), a);
    FastExact(t, start, size, base, a, bytes, p, prior);
    DivMod(p - PageStart(prior), Pow2(a));
  }

  lemma WrappedDiv(w: int, m: int, d: int, bytes: int)
    requires m > 0
    ensures (w * m - d) / m * bytes == (-d) / m * bytes + w * bytes
  {
    DivPlusMultiple(w, -d, m);
    Distribute(w, (-d) / m, bytes);
  }

  /** In unsigned arithmetic an address below the page wraps to the top of the word:
      its slot comes out a whole word's worth of slots too high. */
  lemma WrappedOffset(d: int, a: nat, bytes: int)
    requires a < 64
    ensures Offset(WORD - d, a, bytes) == Offset(-d, a, bytes) + Pow2(64 - a) * bytes
  {
    Pow2At64();
    hide Pow2;
    Pow2Add(64 - a, a);
    WrappedDiv(Pow2(64 - a), Pow2(a), d, bytes);
  }

  lemma VanishExact(w: int, m: int, bytes: int)
    requires w > 0 && m > 0
    ensures m * w > 0 && ((w * bytes) % (m * w) == 0 <==> bytes % m == 0)
  {
    MulMono(1, m, w);
    if bytes % m == 0 {
      DivMod(bytes, m);
      var k := bytes / m;
      assert w * (k * m) == k * (m * w);
      MultipleMod(k, m * w);
    } else if (w * bytes) % (m * w) == 0 {
      DivMod(w * bytes, m * w);
      var k := (w * bytes) / (m * w);
      Cancel(w, bytes, k * m);
      MultipleMod(k, m);
    }
  }

  /** Those extra slots vanish from a 64-bit address exactly when a slot is a whole
      number of alignment units. */
  lemma ExtraSlotsVanish(a: nat, bytes: int)
    requires a < 64
    ensures (Pow2(64 - a) * bytes) % WORD == 0 <==> bytes % Pow2(a) == 0
  {
    Pow2At64();
    hide Pow2;
    Pow2Add(a, 64 - a);
    VanishExact(Pow2(64 - a), Pow2(a), bytes);
  }

  lemma Cancel(w: int, x: int, y: int)
    requires w > 0 && w * x == w * y
    ensures x == y
  {
    if x < y { MulMono(1, y - x, w); }
    if y < x { MulMono(1, x - y, w); }
  }

  lemma BaseBelow(e: int, a: nat, bytes: int, p: int, prior: int)
    requires EntryShift(e) == a < 64 && 0 < PageStart(prior) - p < WORD
    ensures MetaPtrBase(e, p, prior, bytes) == MetaPtrFast(e, a, p, prior, bytes) <==> bytes % Pow2(a) == 0
  {
    hide Offset, EntryMeta, EntryShift, Pow2;
    var d := PageStart(prior) - p;
    WrappedOffset(d, a, bytes);
    ExtraSlotsVanish(a, bytes);
    assert Wrap(p - PageStart(prior)) == WORD - d;
    WrapPlus(EntryMeta(e) + Offset(-d, a, bytes), Pow2(64 - a) * bytes);
  }

  /** An odd factor does not help a number to be a multiple of a power of two. */
  lemma {:induction false} OddFactor(e: nat, x: int, b: int)
    requires x % 2 == 1 && (x * b) % Pow2(e) == 0
    ensures b % Pow2(e) == 0
  {
    if e > 0 {
      var h := Pow2(e - 1);
      DivMod(x * b, 2 * h);
      var q := x * b / (2 * h);
      EvenFactor(x, b, q * h);
      var c := b / 2;
      assert x * b == 2 * (x * c);
      MultipleMod(q, h);
      OddFactor(e - 1, x, c);
      DivMod(c, h);
      assert b == (c / h) * (2 * h);
      MultipleMod(c / h, 2 * h);
    }
  }

  lemma EvenFactor(x: int, b: int, y: int)
    requires x % 2 == 1 && x * b == 2 * y
    ensures b % 2 == 0
  {
    var k := x / 2;
    Distribute(2 * k, 1, b);
    assert b == 2 * (y - k * b);
  }

  /** A wrapped address and a carry never make up for each other. */
  lemma NeverCancel(a: nat, bytes: int)
    requires 0 < a < 64 && 0 < bytes < WORD
    ensures (Pow2(64 - a) * bytes - bytes) % WORD != 0
  {
    var h, w := Pow2(63 - a), Pow2(64 - a);
    assert w == 2 * h;
    hide Pow2;
    assert (w - 1) % 2 == 1;
    Distribute(w, -1, bytes);
    OddNeverZero(w - 1, bytes);
  }

  lemma OddNeverZero(x: int, b: int)
    requires x % 2 == 1 && 0 < b < WORD
    ensures (x * b) % WORD != 0
  {
    hide Pow2;
    Pow2At64();
    assert b % WORD == b;
    if (x * b) % Pow2(64) == 0 { OddFactor(64, x, b); }
  }

  /** metaget_base agrees with metaget exactly when the two roundings do not carry and the
      address is at or above the other page or the alignment unit divides the slot size. */
  lemma BaseExact(t: Table, start: int, size: int, base: int, a: nat, bytes: int, p: int, prior: int)
    requires Mapped(t, start, size, base, a, bytes) && start <= p < start + size && start <= prior < start + size
    ensures MetaPtrBase(EntryAt(t, PageOf(prior)), p, prior, bytes) == MetaPtr(t, p, bytes) <==>
      && (PageStart(prior) - start) % Pow2(a) + (p - PageStart(prior)) % Pow2(a) < Pow2(a)
      && (p >= PageStart(prior) || bytes % Pow2(a) == 0)
  {
    hide Offset, EntryMeta, EntryShift, EntryAt, MetaPtr, Pow2, Entry;
    MulMono(1, size, bytes);
    MulMono(1, bytes, size);
    PageParts(start, size, prior);
    MappedEntry(t, start, size, base, a, bytes, prior);
    FastExact(t, start, size, base, a, bytes, p, prior);
    if p >= PageStart(prior) {
      assert Wrap(p - PageStart(prior)) == p - PageStart(prior);
    } else {
      BaseBelow(EntryAt(t, PageOf(prior)), a, bytes, p, prior);
      if (PageStart(prior) - start) % Pow2(a) + (p - PageStart(prior)) % Pow2(a) >= Pow2(a) {
        BelowWithCarry(t, start, size, base, a, bytes, p, prior);
      }
    }
  }

  lemma BelowWithCarry(t: Table, start: int, size: int, base: int, a: nat, bytes: int, p: int, prior: int)
    requires Mapped(t, start, size, base, a, bytes) && start <= p < PageStart(prior) && start <= prior < start + size
    requires (PageStart(prior) - start) % Pow2(a) + (p - PageStart(prior)) % Pow2(a) >= Pow2(a)
    ensures MetaPtrBase(EntryAt(t, PageOf(prior)), p, prior, bytes) != MetaPtr(t, p, bytes)
  {
    hide Offset, EntryMeta, EntryShift, EntryAt, MetaPtr, Entry;
    var x, y := PageStart(prior) - start, p - PageStart(prior);
    assert a > 0;
    hide Pow2, Mapped, Wrap;
    BelowFacts(t, start, size, base, a, bytes, p, prior);
    OffsetSumExact(x, y, a, bytes);
    WrappedOffset(-y, a, bytes);
    NeverCancel(a, bytes);
    var o, extra := Offset(p - start, a, bytes), Pow2(64 - a) * bytes;
    assert x + y == p - start && Offset(x, a, bytes) + Offset(y, a, bytes) == o - bytes;
    WrapPlus(base + o, extra - bytes);
    Regrouped(base, Offset(x, a, bytes), Offset(y, a, bytes), extra, o, bytes);
  }

  lemma Regrouped(base: int, ox: int, oy: int, extra: int, o: int, bytes: int)
    requires ox + oy == o - bytes
    ensures base + ox + (oy + extra) == base + o + (extra - bytes)
  {
  }

  lemma BelowFacts(t: Table, start: int, size: int, base: int, a: nat, bytes: int, p: int, prior: int)
    requires Mapped(t, start, size, base, a, bytes) && start <= p < PageStart(prior) && start <= prior < start + size
    ensures 0 < bytes < WORD && a < 64
    ensures Wrap(p - PageStart(prior)) == WORD + (p - PageStart(prior))
    ensures EntryMeta(EntryAt(t, PageOf(prior))) == base + Offset(PageStart(prior) - start, a, bytes)
    ensures EntryShift(EntryAt(t, PageOf(prior))) == a
    ensures MetaPtr(t, p, bytes) == Wrap(base + Offset(p - start, a, bytes))
  {
    hide Offset, EntryMeta, EntryShift, EntryAt, MetaPtr, Entry, Pow2;
    MulMono(1, size, bytes);
    MulMono(1, bytes, size);
    PageParts(start, size, prior);
    MappedEntry(t, start, size, base, a, bytes, prior);
    LookupLinear(t, start, size, base, a, bytes, p);
  }

  /** So it does for shifts up to the page size at or above the other page. */
  lemma BaseAgrees(t: Table, start: int, size: int, base: int, a: nat, bytes: int, p: int, prior: int)
    requires Mapped(t, start, size, base, a, bytes) && start <= p < start + size && start <= prior < start + size
    requires a <= 12 && p >= PageStart(prior)
    ensures MetaPtrBase(EntryAt(t, PageOf(prior)), p, prior, bytes) == MetaPtr(t, p, bytes)
  {
    hide Offset, MetaPtr, Pow2;
    FastAgrees(t, start, size, base, a, bytes, p, prior);
    FastExact(t, start, size, base, a, bytes, p, prior);
    BaseExact(t, start, size, base, a, bytes, p, prior);
  }

  /** Entries for `n` pages from address 0 on. */
  function ExampleTable(n: nat, base: int, a: nat, bytes: int): Table {
    map i | 0 <= i < n :: PageEntry(base, i, a, bytes)
  }

  lemma ExampleMapped(n: nat, base: int, a: nat, bytes: int)
    requires base > 0 && a < 64 && bytes > 0 && base + n * PAGE * bytes < 0x100_0000_0000_0000
    ensures Mapped(ExampleTable(n, base, a, bytes), 0, n * PAGE, base, a, bytes)
  {
    hide PageEntry;
    MultipleMod(n, PAGE);
  }

  /** Four pages of 8192-byte objects with 8 bytes of metadata each: the second object,
      looked up from the second page, gets the slot of the first in both short forms. */
  lemma ShortFormsMissAtShift13()
    ensures var t := ExampleTable(4, 0x10_0000, 13, 8);
      && Mapped(t, 0, 16384, 0x10_0000, 13, 8)
      && MetaPtrFast(EntryAt(t, 1), 13, 8192, 4096, 8) != MetaPtr(t, 8192, 8)
      && MetaPtrBase(EntryAt(t, 1), 8192, 4096, 8) != MetaPtr(t, 8192, 8)
  {
    hide Offset, MetaPtr, EntryAt, ExampleTable, Mapped, Pow2;
    ExampleMapped(4, 0x10_0000, 13, 8);
    assert Pow2(13) == 8192 by { Pow2Of13(); }
    FastExact(ExampleTable(4, 0x10_0000, 13, 8), 0, 16384, 0x10_0000, 13, 8, 8192, 4096);
    BaseExact(ExampleTable(4, 0x10_0000, 13, 8), 0, 16384, 0x10_0000, 13, 8, 8192, 4096);
  }

  lemma Pow2Of13()
    ensures Pow2(13) == 8192
  {
    Pow2At12();
    assert Pow2(13) == 2 * Pow2(12);
  }

  /** Two pages of 8-byte objects with 4 bytes of metadata each: looked up from the second
      page, the very first address gets a wrong slot in unsigned arithmetic. */
  lemma BaseMissesBelow()
    ensures var t := ExampleTable(2, 0x10_0000, 3, 4);
      && Mapped(t, 0, 8192, 0x10_0000, 3, 4)
      && MetaPtrBase(EntryAt(t, 1), 0, 4096, 4) != MetaPtr(t, 0, 4)
  {
    hide Offset, MetaPtr, EntryAt, ExampleTable, Mapped;
    ExampleMapped(2, 0x10_0000, 3, 4);
    assert Pow2(3) == 8;
    hide Pow2;
    BaseExact(ExampleTable(2, 0x10_0000, 3, 4), 0, 8192, 0x10_0000, 3, 4, 0, 4096);
  }

  lemma WrapPlus(x: int, extra: int)
    ensures Wrap(x + extra) == Wrap(x) <==> extra % WORD == 0
  {
  }

  // ------------------------------------------------------- setting and getting

  function ByteAt(mem: Bytes, x: int): Byte { if x in mem then mem[x] else 0 }

  function ReadBytes(mem: Bytes, x: int, n: nat): seq<Byte> { seq(n, i requires 0 <= i < n => ByteAt(mem, x + i)) }

  function Piece(x: int, v: seq<Byte>, i: int): Byte
    requires x <= i < x + |v|
  {
    v[i - x]
  }

  function WriteBytes(mem: Bytes, x: int, v: seq<Byte>): Bytes {
    mem + map i | x <= i < x + |v| :: Piece(x, v, i)
  }

  function SlotAt(x: int, k: int, n: int): int { x + k * n }

  /** `count` consecutive slots hold `v`; nothing else changed. */
  ghost predicate SlotsSet(mem: Bytes, mem': Bytes, x: int, count: int, v: seq<Byte>) {
    && (forall k :: 0 <= k < count ==> ReadBytes(mem', SlotAt(x, k, |v|), |v|) == v)
    && (forall y :: y < x || y >= SlotAt(x, count, |v|) ==> ByteAt(mem', y) == ByteAt(mem, y))
  }

  lemma WriteThenRead(mem: Bytes, x: int, v: seq<Byte>)
    ensures ReadBytes(WriteBytes(mem, x, v), x, |v|) == v
  {
    forall i | 0 <= i < |v| ensures ByteAt(WriteBytes(mem, x, v), x + i) == v[i] {
      assert Piece(x, v, x + i) == v[i];
    }
  }

  lemma WriteElsewhere(mem: Bytes, x: int, v: seq<Byte>, y: int, n: nat)
    requires y + n <= x || x + |v| <= y
    ensures ReadBytes(WriteBytes(mem, x, v), y, n) == ReadBytes(mem, y, n)
  {
    var was, now := ReadBytes(mem, y, n), ReadBytes(WriteBytes(mem, x, v), y, n);
    forall i | 0 <= i < n ensures now[i] == was[i] { ByteElsewhere(mem, x, v, y + i); }
  }

  lemma SlotOrder(x: int, j: int, k: int, n: int)
    requires j <= k && n >= 0
    ensures SlotAt(x, j, n) <= SlotAt(x, k, n) && SlotAt(x, k + 1, n) == SlotAt(x, k, n) + n
  {
    MulMono(j, k, n);
    Distribute(k, 1, n);
  }

  lemma OneMoreSlot(mem: Bytes, mem': Bytes, x: int, i: int, v: seq<Byte>)
    requires SlotsSet(mem, mem', x, i, v) && i >= 0
    ensures SlotsSet(mem, WriteBytes(mem', SlotAt(x, i, |v|), v), x, i + 1, v)
  {
    hide SlotAt, ReadBytes, WriteBytes, ByteAt;
    var n, next := |v|, WriteBytes(mem', SlotAt(x, i, |v|), v);
    WriteThenRead(mem', SlotAt(x, i, n), v);
    SlotOrder(x, i, i, n);
    forall k | 0 <= k < i + 1 ensures ReadBytes(next, SlotAt(x, k, n), n) == v {
      if k < i {
        SlotOrder(x, k, k, n);
        SlotOrder(x, k + 1, i, n);
        WriteElsewhere(mem', SlotAt(x, i, n), v, SlotAt(x, k, n), n);
      }
    }
    FirstSlot(x, i, n);
    forall y | y < x || y >= SlotAt(x, i + 1, n) ensures ByteAt(next, y) == ByteAt(mem, y) {
      ByteElsewhere(mem', SlotAt(x, i, n), v, y);
    }
  }

  lemma FirstSlot(x: int, i: int, n: int)
    requires i >= 0 && n >= 0
    ensures x <= SlotAt(x, i, n)
  {
    MulMono(0, i, n);
  }

  lemma ByteElsewhere(mem: Bytes, x: int, v: seq<Byte>, y: int)
    requires y < x || y >= x + |v|
    ensures ByteAt(WriteBytes(mem, x, v), y) == ByteAt(mem, y)
  {
  }

  /** The table, the metadata memory, and the configured metadata size. */
  class MetaStore {
    const bytes: nat
    var table: Table
    var mem: Bytes

    constructor (bytes: nat)
      ensures this.bytes == bytes && table == map[]
    {
      this.bytes := bytes;
      table, mem := map[], map[];
    }

    /** set_metapagetable_entries; a size that is not whole pages stops the process. */
    method SetEntries(ptr: int, size: int, metaptr: int, a: nat) returns (ok: bool)
      requires ptr >= 0 && size >= 0 && a < 64
      modifies this`table
      ensures ok <==> size % PAGE == 0
      ensures ok ==> TableSet(old(table), table, PageOf(ptr), size / PAGE, metaptr, a, bytes)
      ensures !ok ==> table == old(table)
    {
      hide PageEntry;
      if size % PAGE != 0 { return false; }
      var page, count := ptr / PAGE, size / PAGE;
      var i := 0;
      while i < count
        invariant 0 <= i <= count
        invariant TableSet(old(table), table, page, i, metaptr, a, bytes)
      {
        OneMoreEntry(old(table), table, page, i, metaptr, a, bytes);
        table := table[page + i := PageEntry(metaptr, i, a, bytes)];
        i := i + 1;
      }
      ok := true;
    }

    /** The loop shared by the metaset variants. */
    method Fill(metaptr: int, count: nat, value: seq<Byte>)
      modifies this`mem
      ensures SlotsSet(old(mem), mem, metaptr, count, value)
    {
      hide ReadBytes, WriteBytes, ByteAt;
      var i, p := 0, metaptr;
      while i < count
        invariant 0 <= i <= count && p == SlotAt(metaptr, i, |value|)
        invariant SlotsSet(old(mem), mem, metaptr, i, value)
      {
        OneMoreSlot(old(mem), mem, metaptr, i, value);
        mem := WriteBytes(mem, p, value);
        SlotOrder(metaptr, i, i, |value|);
        p := p + |value|;
        i := i + 1;
      }
    }

    method MetaSet(ptr: int, count: int, value: seq<Byte>) returns (entry: int)
      requires count >= 0
      modifies this`mem
      ensures entry == EntryAt(table, PageOf(ptr))
      ensures SlotsSet(old(mem), mem, MetaPtr(table, ptr, |value|), CeilDiv(count, Pow2(EntryShift(entry))), value)
    {
      entry := EntryAt(table, ptr / PAGE);
      Fill(MetaPtr(table, ptr, |value|), CeilDiv(count, Pow2(EntryShift(entry))), value);
    }

    /** The variant given the shift; the safe one does nothing on an empty entry. */
    method MetaSetAlignment(ptr: int, count: int, value: seq<Byte>, a: nat, safe: bool) returns (entry: int)
      requires count >= 0
      modifies this`mem
      ensures safe && EntryAt(table, PageOf(ptr)) == 0 ==> entry == 0 && mem == old(mem)
      ensures !(safe && EntryAt(table, PageOf(ptr)) == 0) ==>
        && entry == EntryAt(table, PageOf(ptr))
        && SlotsSet(old(mem), mem, MetaPtrFast(entry, a, ptr, ptr, |value|), CeilDiv(count, Pow2(a)), value)
    {
      entry := EntryAt(table, ptr / PAGE);
      if safe && entry == 0 { return 0; }
      Fill(MetaPtrFast(entry, a, ptr, ptr, |value|), CeilDiv(count, Pow2(a)), value);
    }

    method MetaSetFast(ptr: int, count: int, value: seq<Byte>, a: nat, entry: int, prior: int)
      requires count >= 0
      modifies this`mem
      ensures SlotsSet(old(mem), mem, MetaPtrFast(entry, a, ptr, prior, |value|), CeilDiv(count, Pow2(a)), value)
    {
      Fill(MetaPtrFast(entry, a, ptr, prior, |value|), CeilDiv(count, Pow2(a)), value);
    }
  }

  // ---------------------------------------------------------------- round trip

  /** metaget: the value stored for an address. */
  function MetaGet(t: Table, mem: Bytes, p: int, size: nat): seq<Byte> { ReadBytes(mem, MetaPtr(t, p, size), size) }

  lemma SlotDistance(x: int, y: int, a: nat, bytes: int)
    ensures Offset(y, a, bytes) - Offset(x, a, bytes) == (y / Pow2(a) - x / Pow2(a)) * bytes
  {
    Distribute(y / Pow2(a), -(x / Pow2(a)), bytes);
  }

  /** All of [x, x + n) lies in the first units from that of `x` exactly when the remainder of
      `x` does not push the end over; otherwise the last address lies beyond. */
  lemma UnitsExact(x: int, n: int, m: int)
    requires n > 0 && m > 0
    ensures x % m + n <= CeilDiv(n, m) * m ==> forall y :: x <= y < x + n ==> y / m < x / m + CeilDiv(n, m)
    ensures x % m + n > CeilDiv(n, m) * m ==> (x + n - 1) / m >= x / m + CeilDiv(n, m)
  {
    var c := CeilDiv(n, m);
    DivMod(x, m);
    Distribute(x / m, c, m);
    if x % m + n <= c * m {
      forall y | x <= y < x + n ensures y / m < x / m + c {
        DivMod(y, m);
        if y / m >= x / m + c { MulMono(x / m + c, y / m, m); }
      }
    } else {
      var y := x + n - 1;
      DivMod(y, m);
      if y / m < x / m + c { MulMono(y / m + 1, x / m + c, m); Distribute(y / m, 1, m); }
    }
  }

  lemma OutsideCoverage(x: int, n: int, m: int, y: int, z: int)
    requires n > 0 && m > 0 && x % m == 0 && z % m == 0 && z <= y && (y < x || z >= x + n)
    ensures y / m < x / m || y / m >= x / m + CeilDiv(n, m)
  {
    CeilDivBounds(n, m);
    DivMod(x, m);
    DivMod(y, m);
    DivMod(z, m);
    var c := CeilDiv(n, m);
    if y < x {
      if y / m >= x / m { MulMono(x / m, y / m, m); }
    } else {
      DivMono(z, y, m);
      Distribute(x / m, c, m);
      if z / m < x / m + c {
        MulMono(z / m, x / m + c - 1, m);
        Distribute(x / m + c, -1, m);
      }
    }
  }

  /** After metaset of (q, n), an address from `q` on reads the value set if its unit is among
      the first from that of `q`, and what it did before if not. */
  lemma SetReaches(t: Table, start: int, size: int, base: int, a: nat, v: seq<Byte>,
                   mem: Bytes, mem': Bytes, q: int, n: int, p: int)
    requires Mapped(t, start, size, base, a, |v|) && start <= q <= p < start + size && n > 0
    requires SlotsSet(mem, mem', MetaPtr(t, q, |v|), CeilDiv(n, Pow2(a)), v)
    ensures MetaGet(t, mem', p, |v|) ==
      if (p - start) / Pow2(a) < (q - start) / Pow2(a) + CeilDiv(n, Pow2(a)) then v else MetaGet(t, mem, p, |v|)
  {
    hide Offset, MetaPtr, CeilDiv, Mapped, ReadBytes, Pow2;
    var m, c := Pow2(a), CeilDiv(n, Pow2(a));
    var k := (p - start) / m - (q - start) / m;
    LookupLinear(t, start, size, base, a, |v|, p);
    LookupLinear(t, start, size, base, a, |v|, q);
    SlotDistance(q - start, p - start, a, |v|);
    DivMono(q - start, p - start, m);
    assert MetaPtr(t, p, |v|) == SlotAt(MetaPtr(t, q, |v|), k, |v|);
    if k < c {
      assert ReadBytes(mem', SlotAt(MetaPtr(t, q, |v|), k, |v|), |v|) == v;
    } else {
      SlotOrder(MetaPtr(t, q, |v|), c, k, |v|);
      ReadBeyond(mem, mem', MetaPtr(t, q, |v|), c, v, MetaPtr(t, p, |v|));
    }
  }

  lemma ReadBeyond(mem: Bytes, mem': Bytes, x: int, c: nat, v: seq<Byte>, y: int)
    requires SlotsSet(mem, mem', x, c, v) && y >= SlotAt(x, c, |v|)
    ensures ReadBytes(mem', y, |v|) == ReadBytes(mem, y, |v|)
  {
  }

  /** metaset then metaget: every address of the object reads the value set exactly when the
      remainder of its start does not push its end over; else the last byte reads what it did. */
  lemma CoverageExact(t: Table, start: int, size: int, base: int, a: nat, v: seq<Byte>,
                      mem: Bytes, mem': Bytes, q: int, n: int)
    requires Mapped(t, start, size, base, a, |v|) && start <= q < q + n <= start + size
    requires SlotsSet(mem, mem', MetaPtr(t, q, |v|), CeilDiv(n, Pow2(a)), v)
    ensures if (q - start) % Pow2(a) + n <= CeilDiv(n, Pow2(a)) * Pow2(a)
      then forall p :: q <= p < q + n ==> MetaGet(t, mem', p, |v|) == v
      else MetaGet(t, mem', q + n - 1, |v|) == MetaGet(t, mem, q + n - 1, |v|)
  {
    hide MetaGet, MetaPtr, CeilDiv, Mapped, Pow2, SlotsSet;
    var m := Pow2(a);
    UnitsExact(q - start, n, m);
    if (q - start) % m + n <= CeilDiv(n, m) * m {
      forall p | q <= p < q + n ensures MetaGet(t, mem', p, |v|) == v {
        SetReaches(t, start, size, base, a, v, mem, mem', q, n, p);
      }
    } else {
      SetReaches(t, start, size, base, a, v, mem, mem', q, n, q + n - 1);
    }
  }

  /** A 16-byte object 8 bytes into a range of 16-byte units gets one slot, and its last byte
      keeps the metadata it had. */
  lemma MisalignedKeepsOld(t: Table, start: int, size: int, base: int, v: seq<Byte>, mem: Bytes, mem': Bytes)
    requires Mapped(t, start, size, base, 4, |v|) && size >= PAGE
    requires SlotsSet(mem, mem', MetaPtr(t, start + 8, |v|), CeilDiv(16, Pow2(4)), v)
    ensures MetaGet(t, mem', start + 23, |v|) == MetaGet(t, mem, start + 23, |v|)
  {
    assert Pow2(4) == 16 && CeilDiv(16, 16) == 1;
    hide MetaGet, MetaPtr, CeilDiv, Pow2, Mapped, SlotsSet;
    CoverageExact(t, start, size, base, 4, v, mem, mem', start + 8, 16);
  }

  /** Aligned objects are always covered. */
  lemma SetThenGet(t: Table, start: int, size: int, base: int, a: nat, v: seq<Byte>,
                   mem: Bytes, mem': Bytes, q: int, n: int, p: int)
    requires Mapped(t, start, size, base, a, |v|) && start <= q <= p < q + n <= start + size
    requires (q - start) % Pow2(a) == 0
    requires SlotsSet(mem, mem', MetaPtr(t, q, |v|), CeilDiv(n, Pow2(a)), v)
    ensures MetaGet(t, mem', p, |v|) == v
  {
    hide MetaGet, MetaPtr, CeilDiv, Mapped, Pow2, SlotsSet;
    CeilDivBounds(n, Pow2(a));
    CoverageExact(t, start, size, base, a, v, mem, mem', q, n);
  }

  /** And every address of another aligned, disjoint object reads what it did. */
  lemma SetLeavesOthers(t: Table, start: int, size: int, base: int, a: nat, v: seq<Byte>,
                        mem: Bytes, mem': Bytes, q: int, n: int, z: int, p: int)
    requires Mapped(t, start, size, base, a, |v|) && start <= q < q + n <= start + size
    requires start <= z <= p < start + size
    requires (q - start) % Pow2(a) == 0 && (z - start) % Pow2(a) == 0 && (p < q || z >= q + n)
    requires SlotsSet(mem, mem', MetaPtr(t, q, |v|), CeilDiv(n, Pow2(a)), v)
    ensures MetaGet(t, mem', p, |v|) == MetaGet(t, mem, p, |v|)
  {
    hide Offset, MetaPtr, CeilDiv, Mapped, Pow2;
    var m, c := Pow2(a), CeilDiv(n, Pow2(a));
    var k := (p - start) / m - (q - start) / m;
    LookupLinear(t, start, size, base, a, |v|, p);
    LookupLinear(t, start, size, base, a, |v|, q);
    SlotDistance(q - start, p - start, a, |v|);
    OutsideCoverage(q - start, n, m, p - start, z - start);
    assert MetaPtr(t, p, |v|) == SlotAt(MetaPtr(t, q, |v|), k, |v|);
    if k < 0 { SlotOrder(MetaPtr(t, q, |v|), k + 1, 0, |v|); SlotOrder(MetaPtr(t, q, |v|), k, k, |v|); }
    else { SlotOrder(MetaPtr(t, q, |v|), c, k, |v|); }
  }
}
