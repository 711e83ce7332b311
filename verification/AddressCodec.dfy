/** The split of a 32-bit virtual address into directory index, table index and
    offset, for every page size that is a power of two. Shifts and masks are
    written as repeated halving and doubling. */
module AddressCodec {
  import opened Options

  const BITS := 32

  // ---------- shifts and masks ----------

  function Shr(x: nat, n: nat): nat
    decreases n
  {
    if n == 0 then x else Shr(x / 2, n - 1)
  }

  function Shl(x: nat, n: nat): nat {
    if n == 0 then x else 2 * Shl(x, n - 1)
  }

  // The n low bits of x.
  function Low(x: nat, n: nat): nat
    decreases n
  {
    if n == 0 then 0 else x % 2 + 2 * Low(x / 2, n - 1)
  }

  function Pow2(n: nat): nat {
    Shl(1, n)
  }

  lemma {:induction false} ShlProduct(x: nat, n: nat)
    ensures Shl(x, n) == x * Pow2(n)
  {
    if n == 0 {
    } else {
      ShlProduct(x, n - 1);
      assert 2 * (x * Pow2(n - 1)) == x * (2 * Pow2(n - 1));
    }
  }

  lemma {:induction false} ShlSum(x: nat, y: nat, n: nat)
    ensures Shl(x + y, n) == Shl(x, n) + Shl(y, n)
    ensures Shl(0, n) == 0
  {
    if n == 0 {
    } else {
      ShlSum(x, y, n - 1);
    }
  }

  lemma {:induction false} ShlLess(x: nat, y: nat, n: nat)
    ensures x < y <==> Shl(x, n) < Shl(y, n)
    ensures Shl(x, n) >= x
  {
    if n == 0 {
    } else {
      ShlLess(x, y, n - 1);
    }
  }

  lemma {:induction false} ShlTwice(x: nat, m: nat, n: nat)
    ensures Shl(Shl(x, m), n) == Shl(x, m + n)
  {
    if n == 0 {
    } else {
      ShlTwice(x, m, n - 1);
    }
  }

  lemma {:induction false} ShrTwice(x: nat, m: nat, n: nat)
    ensures Shr(Shr(x, m), n) == Shr(x, m + n)
    decreases m
  {
    if m == 0 {
    } else {
      ShrTwice(x / 2, m - 1, n);
    }
  }

  lemma {:induction false} Pow2Less(m: nat, n: nat)
    ensures m < n <==> Pow2(m) < Pow2(n)
    ensures Pow2(m) >= 1
  {
    if m == 0 && n == 0 {
    } else if m == 0 {
      Pow2Less(0, n - 1);
    } else if n == 0 {
      Pow2Less(m - 1, 0);
    } else {
      Pow2Less(m - 1, n - 1);
    }
  }

  // Taking a number apart at bit n ...
  lemma {:induction false} Split(x: nat, n: nat)
    ensures x == Shl(Shr(x, n), n) + Low(x, n)
    ensures Low(x, n) < Pow2(n)
    decreases n
  {
    if n == 0 {
    } else {
      Split(x / 2, n - 1);
    }
  }

  // ... and putting it together.
  lemma {:induction false} Pack(a: nat, r: nat, n: nat)
    requires r < Pow2(n)
    ensures Shr(Shl(a, n) + r, n) == a
    ensures Low(Shl(a, n) + r, n) == r
    decreases n
  {
    if n == 0 {
    } else {
      assert (Shl(a, n) + r) / 2 == Shl(a, n - 1) + r / 2;
      Pack(a, r / 2, n - 1);
    }
  }

  lemma {:induction false} LowTop(x: nat, n: nat)
    ensures Low(x, n + 1) == Low(x, n) + Shl(Shr(x, n) % 2, n)
    decreases n
  {
    if n == 0 {
      assert Low(x / 2, 0) == 0;
    } else {
      LowTop(x / 2, n - 1);
    }
  }

  // ---------- the layout ----------

  datatype Layout = Layout(offsetBits: nat, tableBits: nat, dirBits: nat, tableEntries: nat, dirEntries: nat)

  predicate Fits(l: Layout) {
    l.offsetBits + l.tableBits + l.dirBits == BITS
  }

  // The size of a page-table entry is 2 to the ENTRY_BITS bytes.
  const ENTRY_BITS := 3

  // calculate_entries_bits for pages of 2 to the b bytes.
  function Calculate(b: nat): (l: Layout)
    requires ENTRY_BITS <= b <= BITS
    ensures Fits(l) && l.offsetBits == b
  {
    var entries := Pow2(b - ENTRY_BITS);
    var remaining := BITS - b;
    var tableBits := b - ENTRY_BITS;
    if tableBits > remaining then
      var perLevel := (BITS - b) / 2;
      var left := remaining - perLevel;
      Layout(b, perLevel, left,
             if entries > Pow2(perLevel) then Pow2(perLevel) else entries,
             if entries > Pow2(left) then Pow2(left) else entries)
    else
      var left := remaining - tableBits;
      Layout(b, tableBits, left, entries, if entries > Pow2(left) then Pow2(left) else entries)
  }

  // The fields fill the address exactly and tables use all their indices. The
  // directory has an entry for every index only from pages of 2 to the 13 bytes on;
  // below that there are addresses whose directory index is outside the directory.
  lemma LayoutFits(b: nat)
    requires ENTRY_BITS <= b <= BITS
    ensures var l := Calculate(b);
            && l.tableEntries == Pow2(l.tableBits)
            && 1 <= l.dirEntries <= Pow2(l.dirBits)
            && (l.dirEntries == Pow2(l.dirBits) <==> b >= 13)
  {
    var tableBits, remaining := b - ENTRY_BITS, BITS - b;
    Pow2Less(tableBits, tableBits);
    if tableBits > remaining {
      Pow2Less(remaining / 2, tableBits);
      Pow2Less(remaining - remaining / 2, tableBits);
    } else {
      Pow2Less(remaining - tableBits, tableBits);
      Pow2Less(tableBits, remaining - tableBits);
    }
  }

  // The constants of the shipped configuration, 64 KiB pages.
  lemma ShippedLayout()
    ensures Calculate(16) == Layout(16, 13, 3, 8192, 8)
  {
    assert Pow2(3) == 8;
    assert Shl(1, 6) == 64;
    ShlTwice(1, 6, 7);
    assert Shl(64, 5) == 2048;
  }

  lemma ShippedPowers()
    ensures Pow2(0) == 1 && Pow2(3) == 8 && Pow2(13) == 8192 && Pow2(16) == 65536 && Pow2(29) == 536870912
  {
    assert Shl(1, 6) == 64;
    ShlTwice(1, 6, 7);
    assert Shl(64, 7) == 8192;
    ShlTwice(1, 13, 3);
    assert Shl(8192, 3) == 65536;
    ShlTwice(1, 16, 6);
    assert Shl(65536, 6) == 4194304;
    ShlTwice(1, 22, 7);
    assert Shl(4194304, 7) == 536870912;
  }

  // ---------- reading the fields ----------

  // extract_bits: len bits, the first of which is number start from the left.
  function Extract(num: nat, start: nat, len: nat): nat
    requires 1 <= start && start + len <= BITS + 1
  {
    Low(Shr(num, BITS + 1 - len - start), len)
  }

  // Shifting and masking are division and remainder by powers of two, so extract_bits
  // takes the given number of binary digits, counted from the top.
  lemma ShrLowExact(x: nat, n: nat)
    ensures Pow2(n) >= 1 && Shr(x, n) == x / Pow2(n) && Low(x, n) == x % Pow2(n)
  {
    Split(x, n);
    ShlProduct(Shr(x, n), n);
    hide Shr, Low, Pow2;
    Quotient(x, Shr(x, n), Low(x, n), Pow2(n));
  }

  lemma Quotient(x: nat, q: nat, r: nat, d: nat)
    requires x == q * d + r && r < d
    ensures x / d == q && x % d == r
  {
    assert x == x / d * d + x % d;
    var k := q - x / d;
    assert k * d == q * d - x / d * d;
    Multiple(k, d);
  }

  lemma Multiple(k: int, d: nat)
    ensures k >= 1 ==> k * d >= d
    ensures k <= -1 ==> k * d + d <= 0
  {
    assert k * d == d + (k - 1) * d == (k + 1) * d - d;
    assert k >= 1 ==> (k - 1) * d >= 0;
    assert k <= -1 ==> (k + 1) * d <= 0;
  }

  lemma ExtractExact(num: nat, start: nat, len: nat)
    requires 1 <= start && start + len <= BITS + 1
    ensures Pow2(BITS + 1 - len - start) >= 1 && Pow2(len) >= 1
    ensures Extract(num, start, len) == num / Pow2(BITS + 1 - len - start) % Pow2(len)
  {
    ShrLowExact(num, BITS + 1 - len - start);
    ShrLowExact(Shr(num, BITS + 1 - len - start), len);
  }

  function DirIndex(l: Layout, va: nat): nat
    requires Fits(l)
  {
    Extract(va, 1, l.dirBits)
  }

  function TableIndex(l: Layout, va: nat): nat
    requires Fits(l)
  {
    Extract(va, l.dirBits + 1, l.tableBits)
  }

  function Offset(l: Layout, va: nat): nat
    requires Fits(l)
  {
    Extract(va, l.dirBits + l.tableBits + 1, l.offsetBits)
  }

  // ---------- building an address ----------

  function Form(l: Layout, dir: nat, table: nat): nat {
    Shl(Shl(dir, l.tableBits) + table, l.offsetBits)
  }

  // One loop of form_virtual_address: the n low bits of x are shifted in from the left.
  method ShiftIn(start: nat, x: nat, n: nat) returns (v: nat)
    requires start < Pow2(BITS) && n <= BITS
    ensures v == Shl(Low(x, n), BITS - n) + Shr(start, n)
    ensures v < Pow2(BITS)
  {
    hide Low, Shl, Shr;
    v := start;
    var i, rest := 0, x;
    ShiftStart(start, x);
    while i < n
      invariant i <= n && rest == Shr(x, i)
      invariant Shifted(start, x, i, v)
    {
      ShiftStep(start, x, i, v);
      var bit := rest % 2;
      rest := rest / 2;
      // The shift leaves bit 31 clear, so the or of the source is a sum.
      v := v / 2 + Shl(bit, 31);
      i := i + 1;
    }
  }

  ghost predicate Shifted(start: nat, x: nat, i: nat, v: nat) {
    i <= BITS && v < Pow2(BITS) && v == Shl(Low(x, i), BITS - i) + Shr(start, i)
  }

  lemma ShiftStart(start: nat, x: nat)
    requires start < Pow2(BITS)
    ensures Shifted(start, x, 0, start) && x == Shr(x, 0)
  {
    ShlSum(0, 0, BITS);
  }

  lemma ShiftStep(start: nat, x: nat, i: nat, v: nat)
    requires Shifted(start, x, i, v) && i < BITS
    ensures Shr(x, i) / 2 == Shr(x, i + 1)
    ensures Shifted(start, x, i + 1, v / 2 + Shl(Shr(x, i) % 2, 31))
  {
    hide Shl, Shr, Low;
    var low, bit := Low(x, i), Shr(x, i) % 2;
    ShrTwice(x, i, 1);
    ShrTwice(start, i, 1);
    ShrOnce(Shr(x, i));
    ShrOnce(Shr(start, i));
    LowTop(x, i);
    ShlSum(low, Shl(bit, i), 31 - i);
    ShlTwice(bit, i, 31 - i);
    ShlOnce(low, 31 - i);
    ShlOnce(1, 31);
    ShlSum(0, 0, 31);
    assert bit == 0 || bit == 1;
  }

  lemma ShrOnce(x: nat)
    ensures Shr(x, 1) == x / 2
  {
  }

  lemma ShlOnce(x: nat, n: nat)
    ensures Shl(x, n + 1) == 2 * Shl(x, n)
  {
  }

  // form_virtual_address. Surplus high bits of the indices are ignored.
  method FormVirtualAddress(l: Layout, dir: nat, table: nat) returns (va: nat)
    requires Fits(l)
    ensures va == Form(l, Low(dir, l.dirBits), Low(table, l.tableBits))
  {
    hide Low, Shl, Shr;
    var ones := 4294967295;
    AllOnes();
    va := ones;
    var i := 0;
    OnesStep(ones, 0);
    while i < l.offsetBits
      invariant i <= l.offsetBits && va == Shr(ones, i)
    {
      OnesStep(ones, i);
      va := va / 2;
      i := i + 1;
    }
    ShrLess(ones, i);
    var v1 := ShiftIn(va, table, l.tableBits);
    va := ShiftIn(v1, dir, l.dirBits);
    FormDone(l, ones, v1, dir, Low(table, l.tableBits));
  }

  lemma AllOnes()
    ensures Pow2(BITS) == 4294967296
  {
    assert Shl(1, 8) == 256;
    ShlTwice(1, 8, 8);
    assert Shl(256, 8) == 65536;
    ShlTwice(1, 16, 8);
    assert Shl(65536, 8) == 16777216;
    ShlTwice(1, 24, 8);
    assert Shl(16777216, 8) == 4294967296;
  }

  lemma OnesStep(ones: nat, i: nat)
    ensures Shr(ones, 0) == ones && Shr(ones, i) / 2 == Shr(ones, i + 1)
  {
    ShrTwice(ones, i, 1);
    assert Shr(Shr(ones, i), 1) == Shr(ones, i) / 2;
  }

  lemma {:induction false} ShrLess(x: nat, n: nat)
    ensures Shr(x, n) <= x
    decreases n
  {
    if n == 0 {
    } else {
      ShrLess(x / 2, n - 1);
    }
  }

  lemma FormDone(l: Layout, ones: nat, v1: nat, dir: nat, t: nat)
    requires Fits(l) && ones == Pow2(BITS) - 1
    requires v1 == Shl(t, BITS - l.tableBits) + Shr(Shr(ones, l.offsetBits), l.tableBits)
    ensures Shl(Low(dir, l.dirBits), BITS - l.dirBits) + Shr(v1, l.dirBits) == Form(l, Low(dir, l.dirBits), t)
  {
    hide Shl, Shr, Low;
    var d := Low(dir, l.dirBits);
    ShrTwice(ones, l.offsetBits, l.tableBits);
    var r := Shr(ones, l.offsetBits + l.tableBits);
    // What is left of the initial ones is shorter than the directory field.
    Split(ones, l.offsetBits + l.tableBits);
    ShlTwice(1, l.dirBits, l.offsetBits + l.tableBits);
    ShlLess(r, Pow2(l.dirBits), l.offsetBits + l.tableBits);
    ShlTwice(t, l.offsetBits, l.dirBits);
    Pack(Shl(t, l.offsetBits), r, l.dirBits);
    ShlTwice(d, l.tableBits, l.offsetBits);
    ShlSum(Shl(d, l.tableBits), t, l.offsetBits);
  }

  // ---------- the two directions are inverse ----------

  lemma FieldsOfForm(l: Layout, dir: nat, table: nat)
    requires Fits(l) && dir < Pow2(l.dirBits) && table < Pow2(l.tableBits)
    ensures DirIndex(l, Form(l, dir, table)) == dir
    ensures TableIndex(l, Form(l, dir, table)) == table
    ensures Offset(l, Form(l, dir, table)) == 0
  {
    var va, page := Form(l, dir, table), Shl(dir, l.tableBits) + table;
    Pow2Less(0, l.offsetBits);
    Pack(page, 0, l.offsetBits);
    Pack(dir, table, l.tableBits);
    ShrTwice(va, l.offsetBits, l.tableBits);
    ShlSum(0, 0, l.dirBits);
    Pack(0, dir, l.dirBits);
    assert Shr(va, 0) == va;
    hide Shl, Shr, Low;
  }

  lemma FormOfFields(l: Layout, va: nat)
    requires Fits(l) && va < Pow2(BITS)
    ensures Form(l, DirIndex(l, va), TableIndex(l, va)) + Offset(l, va) == va
    ensures DirIndex(l, va) < Pow2(l.dirBits) && TableIndex(l, va) < Pow2(l.tableBits)
    ensures Offset(l, va) < Pow2(l.offsetBits)
    ensures Shr(va, l.offsetBits) == Shl(DirIndex(l, va), l.tableBits) + TableIndex(l, va)
  {
    hide Shl, Shr, Low;
    var page := Shr(va, l.offsetBits);
    Split(va, l.offsetBits);
    Split(page, l.tableBits);
    ShrTwice(va, l.offsetBits, l.tableBits);
    var dir := Shr(page, l.tableBits);
    Split(va, l.offsetBits + l.tableBits);
    ShlTwice(1, l.dirBits, l.offsetBits + l.tableBits);
    ShlLess(dir, Pow2(l.dirBits), l.offsetBits + l.tableBits);
    ShlSum(0, 0, l.dirBits);
    Pack(0, dir, l.dirBits);
    ShrZero(va);
  }

  lemma ShrZero(x: nat)
    ensures Shr(x, 0) == x
  {
  }

  // ---------- the next page ----------

  function PageNumber(l: Layout, va: nat): nat {
    Shr(va, l.offsetBits)
  }

  // get_next_page, with the third field read as the offset within the page (as
  // written its position and width describe no bits of the address).
  function NextPage(l: Layout, va: nat): Option<nat>
    requires Fits(l)
  {
    Split(Shr(va, 0), l.offsetBits);
    if TableIndex(l, va) == l.tableEntries - 1 then
      if DirIndex(l, va) == l.dirEntries - 1 then None
      else Some(Form(l, DirIndex(l, va) + 1, 0))
    else Some(va + (Pow2(l.offsetBits) - Offset(l, va)))
  }

  // The offset field is what is left below the page number.
  lemma OffsetIsRest(l: Layout, va: nat)
    requires Fits(l)
    ensures va == Shl(PageNumber(l, va), l.offsetBits) + Offset(l, va) && Offset(l, va) < Pow2(l.offsetBits)
  {
    hide Shl, Shr, Low;
    Split(va, l.offsetBits);
    ShrZero(va);
  }

  // Inside a table the next page starts where the offset runs out.
  lemma NextInTable(l: Layout, va: nat)
    requires Fits(l)
    ensures Offset(l, va) < Pow2(l.offsetBits)
    ensures va + (Pow2(l.offsetBits) - Offset(l, va)) == Shl(PageNumber(l, va) + 1, l.offsetBits)
  {
    hide Shl, Offset, PageNumber;
    OffsetIsRest(l, va);
    ShlSum(PageNumber(l, va), 1, l.offsetBits);
  }

  // After the last page of a table comes the first page of the next one.
  lemma NextTable(l: Layout, va: nat)
    requires Fits(l) && va < Pow2(BITS) && TableIndex(l, va) == Pow2(l.tableBits) - 1
    ensures Form(l, DirIndex(l, va) + 1, 0) == Shl(PageNumber(l, va) + 1, l.offsetBits)
  {
    hide Shl, Shr, DirIndex, TableIndex, Offset;
    FormOfFields(l, va);
    ShlSum(DirIndex(l, va), 1, l.tableBits);
  }

  // Only the last page of the last table has the last number.
  lemma LastPage(l: Layout, va: nat)
    requires Fits(l) && va < Pow2(BITS) && l.tableEntries == Pow2(l.tableBits) && DirIndex(l, va) < l.dirEntries
    ensures PageNumber(l, va) + 1 == l.dirEntries * l.tableEntries <==>
              TableIndex(l, va) == l.tableEntries - 1 && DirIndex(l, va) == l.dirEntries - 1
  {
    hide Shl, Shr, DirIndex, TableIndex, Offset, Form;
    FormOfFields(l, va);
    var dir, table := DirIndex(l, va), TableIndex(l, va);
    ShlProduct(l.dirEntries, l.tableBits);
    ShlSum(dir, 1, l.tableBits);
    ShlLess(dir + 1, l.dirEntries, l.tableBits);
    ShlLess(l.dirEntries, dir + 1, l.tableBits);
  }

  lemma PageOfStart(l: Layout, page: nat)
    ensures PageNumber(l, Shl(page, l.offsetBits)) == page
  {
    hide Shl, Shr;
    Pow2Less(0, l.offsetBits);
    Pack(page, 0, l.offsetBits);
  }

  // The next page is the one with the next number and starts at offset 0, also where
  // it belongs to the next table; there is none exactly after the last page.
  lemma NextPageIsNext(b: nat, va: nat)
    requires ENTRY_BITS <= b <= BITS && va < Pow2(BITS)
    requires DirIndex(Calculate(b), va) < Calculate(b).dirEntries
    ensures var l := Calculate(b);
            match NextPage(l, va)
            case Some(next) => next == Shl(PageNumber(l, va) + 1, b) && PageNumber(l, next) == PageNumber(l, va) + 1
            case None => PageNumber(l, va) + 1 == l.dirEntries * l.tableEntries
    ensures NextPage(Calculate(b), va) == None <==>
              PageNumber(Calculate(b), va) + 1 == Calculate(b).dirEntries * Calculate(b).tableEntries
  {
    hide Calculate, Shl, DirIndex, TableIndex, Offset, PageNumber, Form;
    LayoutFits(b);
    var l := Calculate(b);
    NextInTable(l, va);
    if TableIndex(l, va) == l.tableEntries - 1 {
      NextTable(l, va);
    }
    LastPage(l, va);
    PageOfStart(l, PageNumber(l, va) + 1);
  }
}
