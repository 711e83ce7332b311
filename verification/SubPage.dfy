/** The allocator for requests below a page: several allocations share a page, each new
    one placed one byte after the space taken so far. */
module SubPage {
  import opened Options
  import AddressCodec

  // This variant of the memory manager is built with 4 KiB pages: 11 bits of directory
  // index, 9 of table index and 12 of offset.
  const PGSIZE := 4096
  const DIR_BITS := 11
  const OFFSET_BITS := 12

  datatype Alloc = Alloc(start: int, end: int, free: bool)

  datatype Partial = Partial(page: int, taken: int)

  predicate Contains(e: Alloc, offset: int, size: int) {
    offset >= e.start && offset + size - 1 <= e.end
  }

  predicate Holds(e: Alloc, x: int) {
    e.start <= x <= e.end
  }

  // The allocation is live and every byte of the range lies in it.
  ghost predicate HoldsAll(e: Alloc, offset: int, size: int) {
    !e.free && forall x :: offset <= x < offset + size ==> Holds(e, x)
  }

  lemma ContainsByBytes(e: Alloc, offset: int, size: int)
    requires 1 <= size
    ensures HoldsAll(e, offset, size) <==> !e.free && Contains(e, offset, size)
  {
    if HoldsAll(e, offset, size) {
      assert Holds(e, offset) && Holds(e, offset + size - 1);
    }
  }

  ghost predicate Disjoint(a: Alloc, b: Alloc) {
    a.end < b.start || b.end < a.start
  }

  // ---------- one page ----------

  ghost predicate InPage(e: Alloc) {
    if e.free then e.start == 0 && e.end == 0 else 0 <= e.start <= e.end < PGSIZE
  }

  ghost predicate HasLive(entries: seq<Alloc>) {
    exists i :: 0 <= i < |entries| && !entries[i].free
  }

  // The live allocations of a page lie inside it, share no byte, and there are some.
  ghost predicate PageOk(entries: seq<Alloc>) {
    && (forall i :: 0 <= i < |entries| ==> InPage(entries[i]))
    && (forall i, j :: 0 <= i < j < |entries| && !entries[i].free && !entries[j].free ==> Disjoint(entries[i], entries[j]))
    && HasLive(entries)
  }

  ghost predicate Below(entries: seq<Alloc>, taken: int) {
    0 <= taken < PGSIZE && forall i :: 0 <= i < |entries| && !entries[i].free ==> entries[i].end <= taken
  }

  lemma BumpKeeps(entries: seq<Alloc>, taken: int, size: int)
    requires PageOk(entries) && Below(entries, taken) && 1 <= size < PGSIZE - taken
    ensures var e := Alloc(taken + 1, taken + size, false);
            PageOk(entries + [e]) && Below(entries + [e], taken + size)
  {
    var e := Alloc(taken + 1, taken + size, false);
    assert (entries + [e])[|entries|] == e;
  }

  // The source compares with >= where the skipped byte calls for >. The allocation it
  // then makes stays inside the page exactly when it does not fill the page to the
  // last byte by its own count.
  predicate FitsAsWritten(taken: int, size: int) {
    PGSIZE - taken >= size
  }

  lemma FitsAsWrittenCondition(taken: int, size: int)
    requires 0 <= taken < PGSIZE && 1 <= size && FitsAsWritten(taken, size)
    ensures InPage(Alloc(taken + 1, taken + size, false)) <==> taken + size != PGSIZE
    ensures taken + size == PGSIZE ==> Alloc(taken + 1, taken + size, false).end == PGSIZE
  {
  }

  // It does happen: after 96 bytes a request for 4000 bytes ends on the next page.
  lemma FitsAsWrittenFails()
    ensures FitsAsWritten(96, 4000) && !InPage(Alloc(97, 4096, false))
  {
  }

  // What freeing does to one entry. A part of an allocation frees all of it.
  function Release(e: Alloc, offset: int, size: int): Alloc {
    if Contains(e, offset, size) then Alloc(0, 0, true) else e
  }

  function ReleaseAll(entries: seq<Alloc>, offset: int, size: int): (r: seq<Alloc>)
    ensures |r| == |entries|
  {
    seq(|entries|, i requires 0 <= i < |entries| => Release(entries[i], offset, size))
  }

  // At most one live allocation holds a given range.
  lemma HolderIsUnique(entries: seq<Alloc>, offset: int, size: int, i: int, j: int)
    requires PageOk(entries) && 1 <= size && 0 <= i < |entries| && 0 <= j < |entries| && i != j
    requires !entries[i].free && !entries[j].free
    ensures !(Contains(entries[i], offset, size) && Contains(entries[j], offset, size))
  {
    var lo, hi := if i < j then i else j, if i < j then j else i;
    assert Disjoint(entries[lo], entries[hi]);
  }

  lemma ReleaseKeeps(entries: seq<Alloc>, offset: int, size: int)
    requires PageOk(entries) && 1 <= size
    ensures var r := ReleaseAll(entries, offset, size);
            && (HasLive(r) ==> PageOk(r))
            && (forall t :: Below(entries, t) ==> Below(r, t))
  {
    var r := ReleaseAll(entries, offset, size);
    forall i | 0 <= i < |r| ensures InPage(r[i]) {
      assert InPage(entries[i]);
    }
  }

  ghost predicate OnlyHolder(entries: seq<Alloc>, offset: int, size: int, i: int) {
    && 0 <= i < |entries| && !entries[i].free && Contains(entries[i], offset, size)
    && forall j :: 0 <= j < |entries| && j != i ==> entries[j].free
  }

  // Freeing leaves no live allocation exactly when it freed the only one.
  lemma LastLive(entries: seq<Alloc>, offset: int, size: int)
    requires PageOk(entries) && 1 <= size
    ensures !HasLive(ReleaseAll(entries, offset, size)) <==> exists i :: OnlyHolder(entries, offset, size, i)
  {
    var r := ReleaseAll(entries, offset, size);
    var k :| 0 <= k < |entries| && !entries[k].free;
    if !HasLive(r) {
      forall j | 0 <= j < |entries| && j != k ensures entries[j].free {
        assert r[j].free && r[k].free;
        if !entries[j].free {
          HolderIsUnique(entries, offset, size, k, j);
        }
      }
      assert r[k].free;
      assert OnlyHolder(entries, offset, size, k);
    }
    if i :| OnlyHolder(entries, offset, size, i) {
      forall j | 0 <= j < |r| ensures r[j].free {
        assert j != i ==> entries[j].free;
      }
    }
  }

  // What freeing does, told by the bytes of the range: the allocation that holds all of
  // them becomes free, and every other entry stays.
  ghost predicate FreedRange(was: seq<Alloc>, now: seq<Alloc>, offset: int, size: int) {
    && |now| == |was|
    && forall i :: 0 <= i < |was| ==>
         now[i] == if HoldsAll(was[i], offset, size) then Alloc(0, 0, true) else was[i]
  }

  ghost predicate OnlyOneHolds(entries: seq<Alloc>, offset: int, size: int) {
    exists i :: 0 <= i < |entries| && HoldsAll(entries[i], offset, size)
                && forall j :: 0 <= j < |entries| && j != i ==> entries[j].free
  }

  lemma ReleaseByBytes(entries: seq<Alloc>, offset: int, size: int)
    requires PageOk(entries) && 1 <= size
    ensures FreedRange(entries, ReleaseAll(entries, offset, size), offset, size)
    ensures OnlyOneHolds(entries, offset, size) <==> exists i :: OnlyHolder(entries, offset, size, i)
  {
    forall i | 0 <= i < |entries|
      ensures HoldsAll(entries[i], offset, size) <==> !entries[i].free && Contains(entries[i], offset, size)
      ensures entries[i].free ==> entries[i] == Alloc(0, 0, true)
    {
      ContainsByBytes(entries[i], offset, size);
      assert InPage(entries[i]);
    }
    hide HoldsAll, Contains;
    if i :| OnlyHolder(entries, offset, size, i) {
      assert HoldsAll(entries[i], offset, size);
    }
    if OnlyOneHolds(entries, offset, size) {
      var i :| 0 <= i < |entries| && HoldsAll(entries[i], offset, size)
               && forall j :: 0 <= j < |entries| && j != i ==> entries[j].free;
      assert OnlyHolder(entries, offset, size, i);
    }
  }

  lemma AcceptsByBytes(entries: seq<Alloc>, offset: int, size: int)
    requires 1 <= size
    ensures Accepts(entries, offset, size) <==> exists i :: 0 <= i < |entries| && HoldsAll(entries[i], offset, size)
  {
    forall i | 0 <= i < |entries|
      ensures HoldsAll(entries[i], offset, size) <==> !entries[i].free && Contains(entries[i], offset, size)
    {
      ContainsByBytes(entries[i], offset, size);
    }
    hide HoldsAll, Contains;
  }

  // ---------- validity of an access ----------

  // is_part_page_valid as written accepts the range of a freed entry, which is 0..0.
  predicate AcceptsAsWritten(entries: seq<Alloc>, offset: int, size: int) {
    exists i :: 0 <= i < |entries| && Contains(entries[i], offset, size)
  }

  predicate Accepts(entries: seq<Alloc>, offset: int, size: int) {
    exists i :: 0 <= i < |entries| && !entries[i].free && Contains(entries[i], offset, size)
  }

  // It is right unless a single byte at offset 0 is asked for, some allocation has
  // been freed and no live one starts the page.
  lemma AcceptsAsWrittenCondition(entries: seq<Alloc>, offset: int, size: int)
    requires PageOk(entries) && 0 <= offset && 1 <= size
    ensures AcceptsAsWritten(entries, offset, size) == Accepts(entries, offset, size) <==>
              !(offset == 0 && size == 1
                && (exists i :: 0 <= i < |entries| && entries[i].free)
                && (forall i :: 0 <= i < |entries| && !entries[i].free ==> entries[i].start > 0))
  {
    if offset == 0 && size == 1 && exists i :: 0 <= i < |entries| && entries[i].free {
      var i :| 0 <= i < |entries| && entries[i].free;
      assert InPage(entries[i]) && Contains(entries[i], offset, size);
    }
    forall i | 0 <= i < |entries| && entries[i].free
      ensures Contains(entries[i], offset, size) <==> offset == 0 && size == 1
    {
      assert InPage(entries[i]);
    }
    forall i | 0 <= i < |entries| && !entries[i].free && offset == 0 && size == 1
      ensures Contains(entries[i], offset, size) <==> entries[i].start <= 0
    {
      assert InPage(entries[i]);
    }
  }

  // It does happen: of two allocations the first is freed, and its first byte passes.
  lemma AcceptsAsWrittenFails()
    ensures var entries := [Alloc(0, 9, false), Alloc(11, 20, false)];
            var freed := ReleaseAll(entries, 0, 10);
            && PageOk(entries) && PageOk(freed)
            && AcceptsAsWritten(freed, 0, 1) && !Accepts(freed, 0, 1)
  {
    var entries := [Alloc(0, 9, false), Alloc(11, 20, false)];
    var freed := ReleaseAll(entries, 0, 10);
    assert !entries[0].free && !freed[1].free;
    assert freed == [Alloc(0, 0, true), Alloc(11, 20, false)];
    assert Contains(freed[0], 0, 1);
  }

  // ---------- the list of pages with room ----------

  // The first page with room for size bytes behind the skipped one, or the length.
  function FirstFit(partial: seq<Partial>, size: int): (k: nat)
    ensures k <= |partial|
    ensures k < |partial| ==> PGSIZE - partial[k].taken > size
    ensures forall i :: 0 <= i < k ==> PGSIZE - partial[i].taken <= size
  {
    if partial == [] || PGSIZE - partial[0].taken > size then 0 else 1 + FirstFit(partial[1..], size)
  }

  lemma FirstFitIs(partial: seq<Partial>, size: int, k: int)
    requires 0 <= k <= |partial| && forall i :: 0 <= i < k ==> PGSIZE - partial[i].taken <= size
    ensures k == |partial| || PGSIZE - partial[k].taken > size ==> FirstFit(partial, size) == k
  {
  }

  // Where an allocation in page k of the list starts.
  function PlaceOf(partial: seq<Partial>, k: int): (int, int)
    requires 0 <= k < |partial|
  {
    (partial[k].page, partial[k].taken + 1)
  }

  // The list after an allocation in page k: the page leaves it or its space grows, as
  // the misread offset says.
  function Updated(partial: seq<Partial>, k: int, offset: int, size: int): seq<Partial>
    requires 0 <= k < |partial| && 0 <= partial[k].page && 0 <= offset
  {
    if Misread(partial[k].page, offset) + size >= PGSIZE
    then partial[..k] + partial[k + 1..]
    else partial[k := Partial(partial[k].page, partial[k].taken + size)]
  }

  function Bumped(partial: seq<Partial>, k: int, size: int): seq<Partial>
    requires 0 <= k < |partial| && 0 <= partial[k].page && 0 <= partial[k].taken
  {
    Updated(partial, k, partial[k].taken + 1, size)
  }

  // ---------- all pages ----------

  ghost predicate AllOk(alloted: map<int, seq<Alloc>>) {
    forall p :: p in alloted ==> PageOk(alloted[p])
  }

  ghost predicate PartialOk(alloted: map<int, seq<Alloc>>, partial: seq<Partial>) {
    forall i :: 0 <= i < |partial| ==> partial[i].page in alloted && Below(alloted[partial[i].page], partial[i].taken)
  }

  ghost predicate Unique(partial: seq<Partial>) {
    forall i, j :: 0 <= i < j < |partial| ==> partial[i].page != partial[j].page
  }

  lemma PartialThere(alloted: map<int, seq<Alloc>>, partial: seq<Partial>, k: int)
    requires PartialOk(alloted, partial) && 0 <= k < |partial|
    ensures partial[k].page in alloted && 0 <= partial[k].taken < PGSIZE
  {
  }

  // An allocation in a page of the list keeps everything, whether the page then stays
  // in the list or leaves it.
  lemma SharedKeeps(alloted: map<int, seq<Alloc>>, partial: seq<Partial>, k: int, size: int)
    requires AllOk(alloted) && PartialOk(alloted, partial) && Unique(partial)
    requires 0 <= k < |partial| && 1 <= size < PGSIZE - partial[k].taken
    ensures 0 <= partial[k].taken + 1 < PGSIZE && partial[k].page in alloted
    ensures var page, start := partial[k].page, partial[k].taken + 1;
            var alloted' := alloted[page := alloted[page] + [Alloc(start, start + size - 1, false)]];
            var stays, leaves := partial[k := Partial(page, partial[k].taken + size)], partial[..k] + partial[k + 1..];
            && AllOk(alloted')
            && PartialOk(alloted', stays) && Unique(stays)
            && PartialOk(alloted', leaves) && Unique(leaves)
  {
    var page, start := partial[k].page, partial[k].taken + 1;
    BumpKeeps(alloted[page], partial[k].taken, size);
    hide PageOk, Below;
  }

  lemma FirstKeeps(alloted: map<int, seq<Alloc>>, partial: seq<Partial>, page: int, size: int)
    requires AllOk(alloted) && PartialOk(alloted, partial) && Unique(partial)
    requires 1 <= size < PGSIZE && page !in alloted
    ensures var alloted' := alloted[page := [Alloc(0, size - 1, false)]];
            var partial' := partial + [Partial(page, size)];
            AllOk(alloted') && PartialOk(alloted', partial') && Unique(partial')
  {
    var e := [Alloc(0, size - 1, false)];
    assert !e[0].free;
    assert PageOk(e) && Below(e, size);
    hide PageOk, Below;
  }

  class SubPages {
    var partial: seq<Partial>
    var alloted: map<int, seq<Alloc>>

    ghost predicate Valid()
      reads this
    {
      AllOk(alloted) && PartialOk(alloted, partial) && Unique(partial)
    }

    constructor ()
      ensures Valid() && alloted == map[]
    {
      partial, alloted := [], map[];
    }

    // check_partial_list, with the strict test. The first page with room is chosen.
    method CheckPartialList(size: int) returns (r: Option<int>)
      ensures r == if FirstFit(partial, size) < |partial| then Some(FirstFit(partial, size)) else None
    {
      var k := 0;
      while k < |partial|
        invariant 0 <= k <= |partial|
        invariant forall i :: 0 <= i < k ==> PGSIZE - partial[i].taken <= size
      {
        FirstFitIs(partial, size, k);
        if PGSIZE - partial[k].taken > size {
          return Some(k);
        }
        k := k + 1;
      }
      FirstFitIs(partial, size, k);
      return None;
    }

    // add_alloc_entry.
    method AddAllocEntry(page: int, offset: int, size: int)
      modifies `alloted
      ensures alloted == old(alloted)[page := (if page in old(alloted) then old(alloted)[page] else []) + [Alloc(offset, offset + size - 1, false)]]
    {
      var entries := if page in alloted then alloted[page] else [];
      alloted := alloted[page := entries + [Alloc(offset, offset + size - 1, false)]];
    }

    // update_partial_list. It misreads the offset (the field starts too early), so a
    // page may leave the list early or late; both are harmless.
    method UpdatePartialList(page: int, offset: int, size: int, ghost k: nat)
      requires k < |partial| && partial[k].page == page && 0 <= page && 0 <= offset < PGSIZE
      requires Unique(partial)
      modifies `partial
      ensures partial == Updated(old(partial), k, offset, size)
    {
      var i := 0;
      while partial[i].page != page
        invariant 0 <= i <= k
        decreases k - i
      {
        i := i + 1;
      }
      assert i == k;
      if Misread(page, offset) + size >= PGSIZE {
        partial := partial[..i] + partial[i + 1..];
      } else {
        partial := partial[i := Partial(page, partial[i].taken + size)];
      }
    }

    // The path of t_malloc through an existing page: no page is mapped for it. The first
    // page of the list with room takes the allocation behind the space taken.
    method AllocateShared(size: int) returns (r: Option<(int, int)>)
      requires Valid() && 1 <= size < PGSIZE && forall p :: p in alloted ==> 0 <= p
      modifies this
      ensures Valid()
      ensures r.None? <==> FirstFit(old(partial), size) == |old(partial)|
      ensures r.None? ==> alloted == old(alloted) && partial == old(partial)
      ensures r.Some? ==> r.value == PlaceOf(old(partial), FirstFit(old(partial), size))
      ensures r.Some? ==> r.value.0 in old(alloted)
      ensures r.Some? ==>
                alloted == old(alloted)[r.value.0 := old(alloted)[r.value.0] + [Alloc(r.value.1, r.value.1 + size - 1, false)]]
      ensures r.Some? ==> partial == Bumped(old(partial), FirstFit(old(partial), size), size)
    {
      hide AllOk, PartialOk, Unique, Misread;
      var fit := CheckPartialList(size);
      if fit.None? {
        return None;
      }
      var k := fit.value;
      var page, start := partial[k].page, partial[k].taken + 1;
      PartialThere(alloted, partial, k);
      SharedKeeps(alloted, partial, k, size);
      AddAllocEntry(page, start, size);
      UpdatePartialList(page, start, size, k);
      return Some((page, start));
    }

    // The path of t_malloc through a page mapped for it: add_alloc_entry, then
    // add_partial_page.
    method AllocateFirst(page: int, size: int)
      requires Valid() && 1 <= size < PGSIZE && page !in alloted
      modifies this
      ensures Valid()
      ensures alloted == old(alloted)[page := [Alloc(0, size - 1, false)]]
      ensures partial == old(partial) + [Partial(page, size)]
    {
      FirstKeeps(alloted, partial, page, size);
      AddAllocEntry(page, 0, size);
      partial := partial + [Partial(page, size)];
      assert [] + [Alloc(0, size - 1, false)] == [Alloc(0, size - 1, false)];
    }

    // is_part_page_valid, restricted to live entries. A page without a list is
    // wholly allocated.
    method IsPartPageValid(page: int, offset: int, size: int) returns (ok: bool)
      ensures ok <==> page !in alloted || alloted[page] == [] || Accepts(alloted[page], offset, size)
      ensures page in alloted && alloted[page] != [] && 1 <= size ==>
                (ok <==> exists i :: 0 <= i < |alloted[page]| && HoldsAll(alloted[page][i], offset, size))
    {
      if page in alloted && 1 <= size {
        AcceptsByBytes(alloted[page], offset, size);
      }
      hide HoldsAll;
      if page !in alloted || alloted[page] == [] {
        return true;
      }
      var i := 0;
      while i < |alloted[page]|
        invariant 0 <= i <= |alloted[page]|
        invariant forall k :: 0 <= k < i ==> alloted[page][k].free || !Contains(alloted[page][k], offset, size)
      {
        if !alloted[page][i].free && Contains(alloted[page][i], offset, size) {
          return true;
        }
        i := i + 1;
      }
      return false;
    }

    // free_part_page; true hands the page back.
    method FreePartPage(page: int, offset: int, size: int) returns (handedBack: bool)
      requires Valid() && 1 <= size
      modifies this
      ensures Valid()
      ensures page !in old(alloted) ==> handedBack && alloted == old(alloted) && partial == old(partial)
      ensures page in old(alloted) ==> (handedBack <==> OnlyOneHolds(old(alloted)[page], offset, size))
      ensures page in old(alloted) && handedBack ==> alloted == old(alloted) - {page}
      ensures page in old(alloted) && !handedBack ==>
                && page in alloted && FreedRange(old(alloted)[page], alloted[page], offset, size)
                && alloted == old(alloted)[page := alloted[page]]
      ensures !handedBack ==> partial == old(partial)
      ensures page in old(alloted) && handedBack ==> partial == WithoutPage(old(partial), page)
    {
      if page !in alloted || alloted[page] == [] {
        return true;
      }
      ghost var was := alloted[page];
      var entries := alloted[page];
      var allFree := true;
      var i := 0;
      while i < |entries|
        invariant 0 <= i <= |was| == |entries|
        invariant forall k :: 0 <= k < i ==> entries[k] == Release(was[k], offset, size)
        invariant forall k :: i <= k < |was| ==> entries[k] == was[k]
        invariant allFree <==> forall k :: 0 <= k < i ==> entries[k].free
      {
        if Contains(entries[i], offset, size) {
          entries := entries[i := Alloc(0, 0, true)];
        }
        if !entries[i].free {
          allFree := false;
        }
        i := i + 1;
      }
      assert entries == ReleaseAll(was, offset, size);
      LastLive(was, offset, size);
      ReleaseByBytes(was, offset, size);
      ReleaseKeeps(was, offset, size);
      if allFree {
        WithoutPageKeeps(partial, page);
        alloted := alloted - {page};
        DeletePartialNode(page);
        return true;
      }
      alloted := alloted[page := entries];
      return false;
    }

    // delete_partial_node.
    method DeletePartialNode(page: int)
      modifies `partial
      ensures partial == WithoutPage(old(partial), page)
    {
      var kept: seq<Partial> := [];
      var i := 0;
      while i < |partial|
        invariant 0 <= i <= |partial| && partial == old(partial)
        invariant kept == WithoutPage(partial[..i], page)
      {
        assert partial[..i + 1][..i] == partial[..i];
        if partial[i].page != page {
          kept := kept + [partial[i]];
        }
        i := i + 1;
      }
      assert partial[..i] == partial;
      partial := kept;
    }
  }

  function Misread(page: int, offset: int): nat
    requires 0 <= page && 0 <= offset
  {
    AddressCodec.Extract(page * PGSIZE + offset, DIR_BITS + 1, OFFSET_BITS)
  }

  // The misread offset is the 12 digits below the directory index: the low 9 digits of
  // the page number and the top 3 of the offset.
  lemma MisreadExact(page: int, offset: int)
    requires 0 <= page && 0 <= offset < PGSIZE
    ensures Misread(page, offset) == page % 512 * 8 + offset / 512
  {
    hide AddressCodec.Pow2, AddressCodec.Extract;
    AddressCodec.ExtractExact(page * PGSIZE + offset, DIR_BITS + 1, OFFSET_BITS);
    SmallPowers();
    MiddleDigits(page, offset);
  }

  lemma SmallPowers()
    ensures AddressCodec.Pow2(9) == 512 && AddressCodec.Pow2(12) == 4096
  {
  }

  lemma MiddleDigits(page: int, offset: int)
    requires 0 <= page && 0 <= offset < PGSIZE
    ensures (page * PGSIZE + offset) / 512 % 4096 == page % 512 * 8 + offset / 512
  {
    assert (page * PGSIZE + offset) / 512 == page * 8 + offset / 512;
    assert page * 8 + offset / 512 == page / 512 * 4096 + (page % 512 * 8 + offset / 512);
  }

  function WithoutPage(partial: seq<Partial>, page: int): seq<Partial> {
    if partial == [] then []
    else
      var rest := WithoutPage(partial[..|partial| - 1], page);
      if partial[|partial| - 1].page == page then rest else rest + [partial[|partial| - 1]]
  }

  lemma {:induction false} WithoutPageKeeps(partial: seq<Partial>, page: int)
    requires forall i, j :: 0 <= i < j < |partial| ==> partial[i].page != partial[j].page
    ensures var r := WithoutPage(partial, page);
            && (forall i :: 0 <= i < |r| ==> r[i] in partial && r[i].page != page)
            && (forall i, j :: 0 <= i < j < |r| ==> r[i].page != r[j].page)
            && (forall i :: 0 <= i < |partial| && partial[i].page != page ==> partial[i] in r)
  {
    if partial == [] {
    } else {
      var last := |partial| - 1;
      var rest := WithoutPage(partial[..last], page);
      WithoutPageKeeps(partial[..last], page);
      WithoutPageStep(partial, page);
      hide WithoutPage;
      forall i | 0 <= i < |rest| ensures rest[i] in partial && rest[i].page != partial[last].page {
        assert rest[i] in partial[..last];
      }
      assert forall i :: 0 <= i < last ==> partial[..last][i] == partial[i];
    }
  }

  lemma WithoutPageStep(partial: seq<Partial>, page: int)
    requires partial != []
    ensures var last := |partial| - 1;
            WithoutPage(partial, page) ==
              WithoutPage(partial[..last], page) + if partial[last].page == page then [] else [partial[last]]
  {
  }

  // The one entry of a page is taken out, and the others keep their order.
  lemma {:induction false} WithoutPageAt(partial: seq<Partial>, page: int, k: nat)
    requires k < |partial| && partial[k].page == page && Unique(partial)
    ensures WithoutPage(partial, page) == partial[..k] + partial[k + 1..]
  {
    var last := |partial| - 1;
    if k == last {
      WithoutPageNone(partial[..last], page);
      assert partial[k + 1..] == [];
    } else {
      WithoutPageAt(partial[..last], page, k);
      assert partial[..last][..k] == partial[..k];
      assert partial[k + 1..] == partial[..last][k + 1..] + [partial[last]];
    }
  }

  lemma {:induction false} WithoutPageNone(partial: seq<Partial>, page: int)
    requires forall i :: 0 <= i < |partial| ==> partial[i].page != page
    ensures WithoutPage(partial, page) == partial
  {
    if partial == [] {
    } else {
      WithoutPageNone(partial[..|partial| - 1], page);
    }
  }

  // Two live allocations, in the same page or not, never share a byte of memory.
  lemma NoSharedByte(alloted: map<int, seq<Alloc>>, p: int, i: int, x: int, q: int, j: int, y: int)
    requires AllOk(alloted) && p in alloted && q in alloted
    requires 0 <= i < |alloted[p]| && 0 <= j < |alloted[q]| && (p != q || i != j)
    requires !alloted[p][i].free && alloted[p][i].start <= x <= alloted[p][i].end
    requires !alloted[q][j].free && alloted[q][j].start <= y <= alloted[q][j].end
    ensures p * PGSIZE + x != q * PGSIZE + y
  {
    assert InPage(alloted[p][i]) && InPage(alloted[q][j]);
    if p == q {
      assert i < j ==> Disjoint(alloted[p][i], alloted[p][j]);
      assert j < i ==> Disjoint(alloted[p][j], alloted[p][i]);
    }
  }
}
