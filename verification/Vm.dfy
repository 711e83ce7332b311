/** The memory manager: physical memory, the two bitmaps and the translation cache,
    changed in place by every call. */
module Vm {
  import opened Bitmaps
  import opened Options
  import opened TranslationCache
  import opened VmModel
  import opened VmLaws

  datatype MapResult = Mapped | AlreadyMapped | NoFrame

  // Fault: the source dereferences the NULL of find_free_physical_page. Overlap: it goes
  // on with page 0 although pages of that range are in use.
  datatype Allocation = Ok(va: int) | NoMemory | Fault | Overlap

  class Memory {
    const mem: array<Frame>
    const phys: array<bv8>
    const virt: array<bv8>
    const tlb: Tlb
    // What the bytes of memory stand for.
    ghost var g: Layout

    ghost predicate Sound(r: set<int>, w: set<int>)
      reads this, mem, phys, virt
    {
      Good(mem[..], Bits(Msb, phys[..]), Bits(Msb, virt[..]), g, r, w)
    }

    ghost predicate Coherent()
      reads this, tlb, tlb.nodes
    {
      tlb.Valid() && tlb.capacity == TLB_ENTRIES && tlb.Cached(g.pages)
    }

    ghost predicate Valid()
      reads this, mem, phys, virt, tlb, tlb.nodes
    {
      Sound({}, {}) && Coherent()
    }

    ghost function Contents(): map<int, Frame>
      reads this, mem
    {
      View(mem[..], g)
    }

    ghost function Phys(): seq<bool>
      reads phys
    {
      Bits(Msb, phys[..])
    }

    ghost function Virt(): seq<bool>
      reads virt
    {
      Bits(Msb, virt[..])
    }

    // set_physical_mem: the directory gets the first free frame, which is frame 0.
    constructor ()
      ensures Valid() && fresh(mem) && fresh(phys) && fresh(virt) && fresh(tlb) && tlb.nodes == []
      ensures g.tabs == map[] && Contents() == map[]
    {
      hide Good, Bits, Frees, Store, View, ZeroFrame, Tlb.Valid;
      var frameBits := NewBitmap(FRAMES / 8);
      var pageBits := NewBitmap(PAGES / 8);
      mem := new Frame[FRAMES](_ => ZeroFrame());
      phys, virt := frameBits, pageBits;
      tlb := new Tlb(TLB_ENTRIES);
      g := Layout(map[], map[], map[0 := Root]);
      new;
      ZeroBits(phys[..]);
      ZeroBits(virt[..]);
      var first := FreeList(phys, 1);
      FirstOfAllFree(Phys());
      Set(Msb, phys, first.value[0]);
      ClearDirectory(first.value[0]);
      BlankIsGood(Phys(), Virt());
    }

    method ClearDirectory(root: int)
      requires root == 0 && mem[..] == Blank()
      modifies mem
      ensures mem[..] == Blank()
    {
      hide Store, ZeroFrame;
      var i := 0;
      while i < DIR_ENTRIES
        invariant 0 <= i <= DIR_ENTRIES && mem[..] == Blank()
      {
        StoreZero(i);
        mem[root] := Store(mem[root], i, 0);
        i := i + 1;
      }
    }

    // The cache never answers anything but the current translation.
    method Lookup(v: int) returns (hit: Option<int>)
      requires Coherent()
      modifies tlb, tlb.nodes`next
      ensures Coherent()
      ensures forall e :: e in tlb.nodes <==> e in old(tlb.nodes)
      ensures hit.Some? ==> v in g.pages && hit.value == g.pages[v]
      ensures hit.None? ==> !tlb.Caches(v)
    {
      ghost var before := tlb.nodes;
      hit := tlb.Check(v);
      forall i | 0 <= i < |tlb.nodes|
        ensures tlb.nodes[i].va in g.pages && g.pages[tlb.nodes[i].va] == tlb.nodes[i].pa
        ensures hit.None? ==> tlb.nodes[i].va != v
      {
        assert tlb.nodes[i] in before;
      }
    }

    method Remember(v: int, f: int)
      requires Coherent() && v in g.pages && g.pages[v] == f && !tlb.Caches(v)
      modifies tlb
      ensures Coherent()
      ensures forall k :: 0 <= k < |tlb.nodes| ==> tlb.nodes[k] in old(tlb.nodes) || fresh(tlb.nodes[k])
    {
      var node := new Entry();
      tlb.Add(v, f, node);
    }

    // translate: the cache first, then the walk. Pages and frames by number.
    method Translate(v: int) returns (r: Option<int>)
      requires Valid() && 0 <= v < PAGES
      modifies tlb, tlb.nodes`next
      ensures Valid()
      ensures Sized(mem[..]) && r == Walk(mem[..], v)
      ensures r == if v in g.pages then Some(g.pages[v]) else None
      ensures forall k :: 0 <= k < |tlb.nodes| ==> tlb.nodes[k] in old(tlb.nodes) || fresh(tlb.nodes[k])
    {
      hide Good, Bits, Load;
      WalkFacts(mem[..], Phys(), Virt(), g, v);
      r := Lookup(v);
      if r.Some? {
        return r;
      }
      var t := Load(mem[0], DirOf(v));
      if t == 0 {
        return None;
      }
      var f := Load(mem[t], IndexOf(v));
      if f == 0 {
        return None;
      }
      Remember(v, f);
      return Some(f);
    }

    // One memcpy into the frame of a mapped page.
    method CopyIn(f: int, o: int, bytes: seq<Octet>, ghost v: int)
      requires Valid() && v in g.pages && g.pages[v] == f
      requires 0 <= o && o + |bytes| <= PGSIZE
      modifies mem
      ensures Valid() && v in Contents()
      ensures v in old(Contents()) && |old(Contents())[v]| == PGSIZE
      ensures Contents() == old(Contents())[v := Splice(old(Contents())[v], o, bytes)]
    {
      hide Good, Bits, View, Tlb.Valid, Tlb.Cached;
      ghost var before, bits, marks := mem[..], phys[..], virt[..];
      SoundSized(before, Phys(), Virt(), g, {}, {});
      ReadView(before, Phys(), Virt(), g, v);
      WriteView(before, Phys(), Virt(), g, v, Splice(before[f], o, bytes));
      mem[f] := mem[f][..o] + bytes + mem[f][o + |bytes|..];
      assert mem[..] == before[f := Splice(before[f], o, bytes)] && phys[..] == bits && virt[..] == marks;
    }

    method CopyPage(p: int, o: int, bytes: seq<Octet>)
      requires Valid() && p in g.pages && 0 <= p < PAGES
      requires 0 <= o && o + |bytes| <= PGSIZE
      modifies mem, tlb, tlb.nodes`next
      ensures Valid() && p in Contents()
      ensures p in old(Contents()) && |old(Contents())[p]| == PGSIZE
      ensures Contents() == old(Contents())[p := Splice(old(Contents())[p], o, bytes)]
      ensures forall k :: 0 <= k < |tlb.nodes| ==> tlb.nodes[k] in old(tlb.nodes) || fresh(tlb.nodes[k])
    {
      hide Good, Bits, View, Splice;
      var r := Translate(p);
      CopyIn(r.value, o, bytes, p);
    }

    // The checking loop of put_value and get_value.
    method CheckRange(va: int, size: nat) returns (ok: bool)
      requires Valid() && 0 <= va < SPACE && size <= MAX_INT && PGSIZE - va % PGSIZE <= size
      modifies tlb, tlb.nodes`next
      ensures Valid()
      ensures ok <==> Reaches(g.pages.Keys, va, size)
      ensures forall k :: 0 <= k < |tlb.nodes| ==> tlb.nodes[k] in old(tlb.nodes) || fresh(tlb.nodes[k])
    {
      hide Good, Bits, View;
      var left, o, p := size, va % PGSIZE, va / PGSIZE;
      ghost var i := 0;
      while left > 0
        invariant 0 <= i && left == size - Done(va, i) && o == OffsetIn(va, i) && p == PageAt(va, i)
        invariant left <= 0 ==> i >= Touched(va % PGSIZE, size)
        invariant Valid()
        invariant forall k :: 0 <= k < i ==> PageAt(va, k) in g.pages
        invariant forall k :: 0 <= k < |tlb.nodes| ==> tlb.nodes[k] in old(tlb.nodes) || fresh(tlb.nodes[k])
      {
        NextChunk(va, size, i);
        var r := Translate(p);
        if r.None? {
          assert PageAt(va, i) !in g.pages.Keys;
          return false;
        }
        left := left - (PGSIZE - o);
        o := 0;
        p := (p + 1) % PAGES;
        i := i + 1;
      }
      return true;
    }

    // put_value. Nothing is written unless every page of the range is mapped.
    method PutValue(va: int, val: seq<Octet>) returns (ok: bool)
      requires Valid() && 0 <= va < SPACE && |val| <= MAX_INT
      modifies mem, tlb, tlb.nodes`next
      ensures Valid()
      ensures ok <==> Reaches(g.pages.Keys, va, |val|)
      ensures Contents() == if ok then Stored(old(Contents()), va, val) else old(Contents())
      ensures SameWalks(old(mem[..]), mem[..])
      ensures forall k :: 0 <= k < |tlb.nodes| ==> tlb.nodes[k] in old(tlb.nodes) || fresh(tlb.nodes[k])
    {
      hide Good, Bits, View, Stored, Splice;
      ghost var before := Contents();
      ViewWhole(mem[..], Phys(), Virt(), g);
      var offset := va % PGSIZE;
      ghost var was := mem[..];
      if PGSIZE - offset > |val| {
        var r := Translate(va / PGSIZE);
        assert PageAt(va, 0) == va / PGSIZE;
        ok := r.Some?;
        if ok {
          StoredWithin(before, va, val);
          CopyIn(r.value, offset, val, va / PGSIZE);
        }
      } else {
        ok := CheckRange(va, |val|);
        if ok {
          CopyOver(va, val);
        }
      }
      TranslationsFromLayout(was, old(Phys()), old(Virt()), mem[..], Phys(), Virt(), g);
    }

    // The copying loop of put_value.
    method CopyOver(va: int, val: seq<Octet>)
      requires Valid() && 0 <= va < SPACE && |val| <= MAX_INT
      requires Reaches(g.pages.Keys, va, |val|)
      modifies mem, tlb, tlb.nodes`next
      ensures Valid()
      ensures Contents() == Stored(old(Contents()), va, val)
      ensures forall k :: 0 <= k < |tlb.nodes| ==> tlb.nodes[k] in old(tlb.nodes) || fresh(tlb.nodes[k])
    {
      hide Good, Bits, View, Stored, Copying, Copied, Reaches, Whole, Splice;
      ghost var before := Contents();
      ViewWhole(mem[..], Phys(), Virt(), g);
      CopyEnds(before, va, val);
      var left, o, p, rest := |val|, va % PGSIZE, va / PGSIZE, val;
      ghost var i := 0;
      while left > 0
        invariant Copying(va, val, i, left, o, p, rest)
        invariant Valid()
        invariant 0 <= Copied(va, |val|, i) <= |val|
        invariant Contents() == Stored(before, va, val[..Copied(va, |val|, i)])
        invariant forall k :: 0 <= k < |tlb.nodes| ==> tlb.nodes[k] in old(tlb.nodes) || fresh(tlb.nodes[k])
      {
        var c := if left > PGSIZE - o then PGSIZE - o else left;
        CopyTurn(before, va, val, i, left, o, p, rest, c);
        CopyBounds(va, val, i + 1, left - (PGSIZE - o), 0, (p + 1) % PAGES, rest[c..]);
        CopyPage(p, o, rest[..c]);
        rest := rest[c..];
        left := left - (PGSIZE - o);
        o := 0;
        p := (p + 1) % PAGES;
        i := i + 1;
      }
      CopyBounds(va, val, i, left, o, p, rest);
    }

    // get_value. The loops are those of put_value.
    method GetValue(va: int, size: nat) returns (r: Option<seq<Octet>>)
      requires Valid() && 0 <= va < SPACE && size <= MAX_INT
      modifies tlb, tlb.nodes`next
      ensures Valid()
      ensures r == if Reaches(g.pages.Keys, va, size) then Some(Fetched(Contents(), va, size)) else None
      ensures forall k :: 0 <= k < |tlb.nodes| ==> tlb.nodes[k] in old(tlb.nodes) || fresh(tlb.nodes[k])
    {
      hide Good, Bits, View, Fetched;
      ghost var view := Contents();
      var offset := va % PGSIZE;
      ViewWhole(mem[..], Phys(), Virt(), g);
      if PGSIZE - offset > size {
        var f := Translate(va / PGSIZE);
        assert PageAt(va, 0) == va / PGSIZE;
        if f.None? {
          return None;
        }
        ReadView(mem[..], Phys(), Virt(), g, va / PGSIZE);
        FetchedWithin(view, va, size);
        return Some(mem[f.value][offset..offset + size]);
      }
      var ok := CheckRange(va, size);
      if !ok {
        return None;
      }
      var out := CopyOut(va, size);
      return Some(out);
    }

    method CopyOut(va: int, size: nat) returns (out: seq<Octet>)
      requires Valid() && 0 <= va < SPACE && size <= MAX_INT
      requires Reaches(g.pages.Keys, va, size)
      modifies tlb, tlb.nodes`next
      ensures Valid()
      ensures out == Fetched(Contents(), va, size)
      ensures forall k :: 0 <= k < |tlb.nodes| ==> tlb.nodes[k] in old(tlb.nodes) || fresh(tlb.nodes[k])
    {
      hide Good, Bits, View, Fetched, Fetching, Copied, Reaches, Whole;
      ghost var view := Contents();
      ViewWhole(mem[..], Phys(), Virt(), g);
      FetchEnds(view, va, size);
      out := [];
      var left, o, p := size, va % PGSIZE, va / PGSIZE;
      ghost var i := 0;
      while left > 0
        invariant Fetching(va, size, i, left, o, p)
        invariant Valid()
        invariant 0 <= Copied(va, size, i) <= size
        invariant out == Fetched(view, va, Copied(va, size, i))
        invariant forall k :: 0 <= k < |tlb.nodes| ==> tlb.nodes[k] in old(tlb.nodes) || fresh(tlb.nodes[k])
      {
        var c := if left > PGSIZE - o then PGSIZE - o else left;
        FetchTurn(view, va, size, i, left, o, p, c);
        FetchBounds(va, size, i + 1, left - (PGSIZE - o), 0, (p + 1) % PAGES);
        var chunk := FetchPage(p, o, c);
        out := out + chunk;
        left := left - (PGSIZE - o);
        o := 0;
        p := (p + 1) % PAGES;
        i := i + 1;
      }
      FetchBounds(va, size, i, left, o, p);
    }

    method FetchPage(p: int, o: int, c: int) returns (chunk: seq<Octet>)
      requires Valid() && p in g.pages && 0 <= p < PAGES
      requires 0 <= o && 0 <= c && o + c <= PGSIZE
      modifies tlb, tlb.nodes`next
      ensures Valid() && p in Contents() && |Contents()[p]| == PGSIZE
      ensures chunk == Contents()[p][o..o + c]
      ensures forall k :: 0 <= k < |tlb.nodes| ==> tlb.nodes[k] in old(tlb.nodes) || fresh(tlb.nodes[k])
    {
      hide Good, Bits, View;
      ReadView(mem[..], Phys(), Virt(), g, p);
      var f := Translate(p);
      chunk := mem[f.value][o..o + c];
    }

    // ---------- mapping ----------

    // The loop of page_map that clears a new table.
    method ZeroTable(t: int)
      requires 0 <= t < FRAMES && mem.Length == FRAMES && |mem[t]| == PGSIZE
      modifies mem
      ensures AllZero(mem[t])
      ensures mem[..] == old(mem[..])[t := mem[t]]
    {
      hide Load, Store;
      var j := 0;
      while j < TABLE_ENTRIES
        invariant 0 <= j <= TABLE_ENTRIES && |mem[t]| == PGSIZE
        invariant forall k :: 0 <= k < j ==> Load(mem[t], k) == 0
        invariant mem[..] == old(mem[..])[t := mem[t]]
      {
        ghost var was := mem[t];
        mem[t] := Store(mem[t], j, 0);
        forall k | 0 <= k < j + 1 ensures Load(mem[t], k) == 0 {
          LoadStore(was, j, 0, k);
        }
        j := j + 1;
      }
    }

    // The first half of page_map: a table for directory entry i in the first free frame.
    method NewPageTable(i: int, ghost r: set<int>, ghost w: set<int>) returns (ok: bool)
      requires Sound(r, w) && 0 <= i < DIR_ENTRIES && i !in g.tabs
      modifies `g, mem, phys
      ensures ok <==> old(Frees(Phys())) != []
      ensures ok ==> Sound(r, w) && Contents() == old(Contents())
      ensures ok ==> g.pages == old(g.pages) && g.tabs == old(g.tabs)[i := Frees(old(Phys()))[0]]
      ensures ok ==> |Frees(Phys())| == old(|Frees(Phys())|) - 1
    {
      hide Good, Bits, View, Load, Store, Frees, AllZero;
      ghost var before, bits := mem[..], Phys();
      SoundSized(before, bits, Virt(), g, r, w);
      var free := FreeList(phys, 1);
      if free.None? {
        return false;
      }
      var t := free.value[0];
      FirstFree(bits);
      mem[0] := Store(mem[0], i, t);
      Set(Msb, phys, t);
      FirstFreeIsNotRoot(before, bits, Virt(), g, r, w, t);
      ZeroTable(t);
      NewTable(before, bits, Virt(), g, r, w, i, t, mem[t]);
      g := WithTable(g, i, t);
      assert mem[..] == before[0 := Store(before[0], i, t)][t := mem[t]];
      return true;
    }

    // page_map, for a page announced in the virtual bitmap and a reserved frame.
    method PageMap(v: int, f: int) returns (m: MapResult)
      requires 0 <= v < PAGES && Sound({f}, if v in g.pages then {} else {v}) && Coherent()
      modifies `g, mem, phys
      ensures m.AlreadyMapped? <==> v in old(g.pages)
      ensures m.AlreadyMapped? ==> mem[..] == old(mem[..]) && Phys() == old(Phys()) && g == old(g)
      ensures m.NoFrame? <==> v !in old(g.pages) && DirOf(v) !in old(g.tabs) && old(Frees(Phys())) == []
      ensures m.Mapped? ==> Sound({}, {}) && Coherent()
      ensures m.Mapped? ==> g.pages == old(g.pages)[v := f] && Contents() == old(Contents())[v := ZeroFrame()]
      ensures m.Mapped? ==> g.tabs.Keys == old(g.tabs.Keys) + {DirOf(v)}
      ensures m.Mapped? ==> forall i :: i in old(g.tabs) ==> g.tabs[i] == old(g.tabs)[i]
      ensures m.Mapped? ==> |Frees(Phys())| == old(|Frees(Phys())|) - if DirOf(v) in old(g.tabs) then 0 else 1
    {
      hide Good, Bits, View, Load, Store, Frees;
      ghost var w: set<int> := if v in g.pages then {} else {v};
      SoundSized(mem[..], Phys(), Virt(), g, {f}, w);
      DirEntryFacts(mem[..], Phys(), Virt(), g, {f}, w, v);
      if Load(mem[0], DirOf(v)) == 0 {
        var ok := NewPageTable(DirOf(v), {f}, w);
        if !ok {
          return NoFrame;
        }
        DirEntryFacts(mem[..], Phys(), Virt(), g, {f}, w, v);
      }
      var t := Load(mem[0], DirOf(v));
      if Load(mem[t], IndexOf(v)) != 0 {
        return AlreadyMapped;
      }
      FillEntry(v, f, t);
      return Mapped;
    }

    // The last step of page_map.
    method FillEntry(v: int, f: int, t: int)
      requires 0 <= v < PAGES && v !in g.pages && Sound({f}, {v}) && Coherent()
      requires DirOf(v) in g.tabs && t == g.tabs[DirOf(v)]
      modifies `g, mem
      ensures Sound({}, {}) && Coherent() && g == WithPage(old(g), v, f)
      ensures Contents() == old(Contents())[v := ZeroFrame()] && Phys() == old(Phys())
    {
      hide Good, Bits, View, Load, Store, Tlb.Valid, ZeroFrame;
      ghost var before, bits, marks := mem[..], phys[..], virt[..];
      SoundSized(before, Phys(), Virt(), g, {f}, {v});
      MapPage(before, Phys(), Virt(), g, {f}, {v}, v, f);
      assert {f} - {f} == {} && {v} - {v} == {};
      mem[t] := Store(mem[t], IndexOf(v), f);
      assert mem[..] == SetEntry(before, g, v, f) && phys[..] == bits && virt[..] == marks;
      g := WithPage(g, v, f);
    }

    // ---------- allocating ----------

    // One turn of the loop of t_malloc: mark page and frame, then map them.
    method MapNext(v: int, f: int) returns (ok: bool)
      requires Valid() && 0 <= v < PAGES && 0 <= f < FRAMES && !Virt()[v] && !Phys()[f]
      modifies `g, mem, phys, virt
      ensures ok <==> DirOf(v) in old(g.tabs) || old(|Frees(Phys())|) > 1
      ensures ok ==> Valid() && g.pages == old(g.pages)[v := f] && v !in old(g.pages)
      ensures ok ==> Contents() == old(Contents())[v := ZeroFrame()]
      ensures ok ==> g.tabs.Keys == old(g.tabs.Keys) + {DirOf(v)}
      ensures ok ==> forall i :: i in old(g.tabs) ==> g.tabs[i] == old(g.tabs)[i]
      ensures ok ==> |Frees(Phys())| == old(|Frees(Phys())|) - if DirOf(v) in old(g.tabs) then 1 else 2
    {
      hide Good, Bits, View, Frees, Marked;
      ghost var bits, marks := Phys(), Virt();
      SoundSized(mem[..], bits, marks, g, {}, {});
      AnnounceAndReserve(mem[..], bits, marks, g, v, f);
      FreesTake(bits, f);
      Set(Msb, virt, v);
      Set(Msb, phys, f);
      var m := PageMap(v, f);
      ok := m.Mapped?;
    }

    // The loop of t_malloc.
    method MapRange(v: int, n: nat, first: int) returns (ok: bool)
      requires Valid() && 0 <= v && n >= 1 && v + n <= PAGES && forall k :: v <= k < v + n ==> !Virt()[k]
      requires |Frees(Phys())| >= n && first == Frees(Phys())[0]
      modifies `g, mem, phys, virt
      ensures ok <==> old(|Frees(Phys())|) >= n + |NewTables(old(g.tabs), v, n)| + 1
      ensures ok ==> Valid() && Allocated(old(g), g, v, n)
      ensures ok ==> Contents() == Added(old(Contents()), v, n)
    {
      hide Good, Bits, View, Frees, NewTables, Added, Allocated, NoneMapped, InRange;
      ghost var g0, view, total := g, Contents(), |Frees(Phys())|;
      StartRange(mem[..], Phys(), Virt(), g0, view, v, n);
      FirstFree(Phys());
      var p, f, i := v, first, 0;
      RangeStarts(g0, view, total, v, n, f);
      while i < n
        invariant 0 <= i <= n && p == if i < n then v + i else v + n - 1
        invariant InRange(g0, view, total, v, n, i, f)
      {
        var mapped, next := MapTurn(p, f, g0, view, total, v, n, i);
        if !mapped {
          return false;
        }
        f := next;
        if i != n - 1 {
          p := (p + 1) % PAGES;
        }
        i := i + 1;
      }
      RangeEnds(g0, view, total, v, n, f);
      return true;
    }

    // When i pages of the range have been mapped and frame f is the next one to use.
    ghost predicate InRange(g0: Layout, view: map<int, Frame>, total: int, v: int, n: nat, i: nat, f: int)
      reads this, mem, phys, virt, tlb, tlb.nodes
    {
      && 0 <= v && i <= n && v + n <= PAGES && NoneMapped(g0, v, n)
      && Valid() && |Phys()| == FRAMES && 0 <= f < FRAMES && !Phys()[f]
      && Allocated(g0, g, v, i) && Contents() == Added(view, v, i)
      && |Frees(Phys())| == total - i - |NewTables(g0.tabs, v, i)| && |Frees(Phys())| >= 1
    }

    lemma RangeStarts(g0: Layout, view: map<int, Frame>, total: int, v: int, n: nat, f: int)
      requires 0 <= v && v + n <= PAGES && NoneMapped(g0, v, n)
      requires Valid() && |Phys()| == FRAMES && 0 <= f < FRAMES && !Phys()[f]
      requires Allocated(g0, g, v, 0) && Contents() == Added(view, v, 0)
      requires |Frees(Phys())| == total >= 1 && NewTables(g0.tabs, v, 0) == {}
      ensures InRange(g0, view, total, v, n, 0, f)
    {
      hide Good, Bits, View, Frees, NewTables, Added, Allocated, NoneMapped, Coherent;
    }

    lemma RangeEnds(g0: Layout, view: map<int, Frame>, total: int, v: int, n: nat, f: int)
      requires InRange(g0, view, total, v, n, n, f)
      ensures Valid() && Allocated(g0, g, v, n) && Contents() == Added(view, v, n)
      ensures total >= n + |NewTables(g0.tabs, v, n)| + 1
    {
      hide Good, Bits, View, Frees, NewTables, Added, Allocated, NoneMapped, Coherent;
    }

    method MapTurn(p: int, f: int, ghost g0: Layout, ghost view: map<int, Frame>, ghost total: int, ghost v: int,
            ghost n: nat, ghost i: nat)
      returns (ok: bool, next: int)
      requires InRange(g0, view, total, v, n, i, f) && i < n && p == v + i
      modifies `g, mem, phys, virt
      ensures ok ==> InRange(g0, view, total, v, n, i + 1, next)
      ensures !ok ==> total < n + |NewTables(g0.tabs, v, n)| + 1
    {
      hide Good, Bits, View, Frees, NewTables, Added, Allocated, NoneMapped;
      ghost var was := g;
      next := 0;
      NextUnmarked(mem[..], Phys(), Virt(), g0, g, v, i, n);
      NewTablesGrow(g0.tabs, v, i, n);
      NewTablesGrow(g0.tabs, v, i + 1, n);
      ok := MapNext(p, f);
      if !ok {
        return;
      }
      GrowRange(g0, was, g, view, v, i, f);
      var free := FreeList(phys, 1);
      if free.None? {
        return false, 0;
      }
      FirstFree(Phys());
      SoundSized(mem[..], Phys(), Virt(), g, {}, {});
      next := free.value[0];
    }

    // t_malloc. The run found is that of FirstRun, and without one the range starts at
    // page 0. A fault is the NULL dereference that happens exactly when data and new
    // tables fit but no spare frame is left over.
    method TMalloc(bytes: nat) returns (r: Allocation, ghost run: Option<nat>)
      requires Valid() && bytes < SPACE
      modifies `g, mem, phys, virt
      ensures PagesFor(bytes) >= 1 ==> FirstRun(old(Virt()), RunLength(PagesFor(bytes)), run)
      ensures r.NoMemory? <==> PagesFor(bytes) == 0 || old(|Frees(Phys())|) < PagesFor(bytes)
      ensures r.Overlap? <==> !r.NoMemory? && !FreeRun(old(Virt()), StartAsWritten(run), PagesFor(bytes))
      ensures r.NoMemory? || r.Overlap? ==>
                mem[..] == old(mem[..]) && Phys() == old(Phys()) && Virt() == old(Virt()) && g == old(g)
      ensures r.Fault? <==> && !r.NoMemory? && !r.Overlap?
                            && old(|Frees(Phys())|) <
                                 PagesFor(bytes) + |NewTables(old(g.tabs), StartAsWritten(run), PagesFor(bytes))| + 1
      ensures !r.Fault? ==> Valid()
      ensures r.Ok? ==> r.va == StartAsWritten(run) * PGSIZE && r.va < SPACE
      ensures r.Ok? ==> Allocated(old(g), g, StartAsWritten(run), PagesFor(bytes))
      ensures r.Ok? ==> Contents() == Added(old(Contents()), StartAsWritten(run), PagesFor(bytes))
      ensures r.NoMemory? <==> bytes == 0 || PGSIZE * old(|Frees(Phys())|) < bytes
      ensures r.Ok? ==> Reaches(g.pages.Keys, r.va, bytes)
      ensures r.Ok? ==> bytes <= PGSIZE * (|g.pages| - |old(g.pages)|) < bytes + PGSIZE
    {
      hide Good, Bits, View, Frees, Marked, FirstRun, Allocated, Added, Reaches, PagesFor;
      PagesForExact(bytes);
      var n := PagesFor(bytes);
      var start := FirstFit(virt, n);
      run := start;
      var frames := FreeList(phys, n);
      if frames.None? {
        return NoMemory, run;
      }
      SoundSized(mem[..], Phys(), Virt(), g, {}, {});
      RunIsFree(Virt(), n, run);
      var v := StartAsWritten(start);
      if start.None? {
        var taken := Get(Msb, virt, 0);
        if n >= 2 || taken {
          return Overlap, run;
        }
      }
      ghost var g0 := g;
      var ok := MapRange(v, n, frames.value[0]);
      if ok {
        AllocatedFits(g0, g, v, bytes);
      }
      r := if ok then Ok(v * PGSIZE) else Fault;
    }

    // ---------- freeing ----------

    method Forget(v: int)
      requires Coherent() && v in g.pages
      modifies tlb, tlb.nodes`next
      ensures tlb.Valid() && tlb.capacity == TLB_ENTRIES && tlb.Cached(g.pages - {v})
      ensures forall k :: 0 <= k < |tlb.nodes| ==> tlb.nodes[k] in old(tlb.nodes)
    {
      tlb.Delete(v);
      forall i | 0 <= i < |tlb.nodes|
        ensures tlb.nodes[i].va in g.pages - {v} && (g.pages - {v})[tlb.nodes[i].va] == tlb.nodes[i].pa
      {
        assert tlb.nodes[i] in old(tlb.nodes);
      }
    }

    // One turn of the loop of t_free, clearing the bit of the frame of this very page.
    method FreeOne(v: int)
      requires Valid() && v in g.pages && 0 <= v < PAGES
      modifies `g, mem, phys, virt, tlb, tlb.nodes`next
      ensures Valid() && g == WithoutPage(old(g), v)
      ensures Contents() == old(Contents()) - {v}
      ensures forall k :: 0 <= k < |tlb.nodes| ==> tlb.nodes[k] in old(tlb.nodes)
    {
      hide Good, Bits, View, ZeroFrame, SetEntry, Wipe, Tlb.Valid, Tlb.Cached;
      ghost var before := mem[..];
      SoundSized(before, Phys(), Virt(), g, {}, {});
      FreePage(before, Phys(), Virt(), g, v);
      Forget(v);
      var f := WipePage(v);
      Clear(Msb, phys, f);
      Clear(Msb, virt, v);
      g := WithoutPage(g, v);
    }

    // The frame of page v is cleared and its table entry removed.
    method WipePage(v: int) returns (f: int)
      requires Sound({}, {}) && v in g.pages && 0 <= v < PAGES
      modifies mem
      ensures DirOf(v) in g.tabs && 0 < g.pages[v] < FRAMES && 0 < g.tabs[DirOf(v)] < FRAMES && Sized(old(mem[..]))
      ensures f == g.pages[v] && mem[..] == SetEntry(Wipe(old(mem[..]), g, v), g, v, 0)
    {
      hide Good, Load, Store, ZeroFrame;
      DirEntryFacts(mem[..], Phys(), Virt(), g, {}, {}, v);
      TableIsNotPage(mem[..], Phys(), Virt(), g, v);
      var t := Load(mem[0], DirOf(v));
      f := Load(mem[t], IndexOf(v));
      mem[f] := ZeroFrame();
      mem[t] := Store(mem[t], IndexOf(v), 0);
    }

    // t_free, walking the tables for each page. Nothing is freed unless the directory
    // entry of the first page and the entries of all pages are there.
    method TFree(va: int, size: int) returns (ok: bool)
      requires Valid() && 0 <= va < SPACE && size <= MAX_INT
      modifies `g, mem, phys, virt, tlb, tlb.nodes`next
      ensures Valid()
      ensures ok <==> DirOf(va / PGSIZE) in old(g.tabs) && AllMapped(old(g.pages), va / PGSIZE, PagesFor(size))
      ensures !ok ==> mem[..] == old(mem[..]) && Phys() == old(Phys()) && Virt() == old(Virt()) && g == old(g) && tlb.nodes == old(tlb.nodes)
      ensures ok ==> g.tabs == old(g.tabs) && g.pages == Removed(old(g.pages), va / PGSIZE, PagesFor(size))
      ensures ok ==> Contents() == Removed(old(Contents()), va / PGSIZE, PagesFor(size))
      ensures va % PGSIZE == 0 && size >= 1 ==>
                (ok <==> forall x :: va <= x < va + size ==> PageOf(x) in old(g.pages))
      ensures va % PGSIZE == 0 && size >= 1 && ok ==>
                forall p :: p in old(g.pages) && p !in g.pages <==> exists x :: va <= x < va + size && PageOf(x) == p
      ensures forall k :: 0 <= k < |tlb.nodes| ==> tlb.nodes[k] in old(tlb.nodes)
    {
      hide Good, Bits, View, Load, Removed, AllMapped;
      if va % PGSIZE == 0 && size >= 1 {
        FreedByBytes(g.pages, va, size);
        MappedHasTable(mem[..], Phys(), Virt(), g, va / PGSIZE, PagesFor(size));
      }
      var n, v := PagesFor(size), va / PGSIZE;
      DirEntryFacts(mem[..], Phys(), Virt(), g, {}, {}, v);
      if Load(mem[0], DirOf(v)) == 0 {
        return false;
      }
      var there := AllThere(v, n);
      if !there {
        return false;
      }
      FreeRange(v, n);
      return true;
    }

    // The checking loop of t_free.
    method AllThere(v: int, n: nat) returns (ok: bool)
      requires Valid() && 0 <= v
      ensures ok <==> AllMapped(g.pages, v, n)
    {
      hide Good, Bits, View, Load;
      var i := 0;
      while i < n
        invariant 0 <= i <= n && AllMapped(g.pages, v, i)
      {
        PagesInRange(mem[..], Phys(), Virt(), g, v + i);
        if v + i >= PAGES {
          return false;
        }
        WalkFacts(mem[..], Phys(), Virt(), g, v + i);
        if Walk(mem[..], v + i) == None {
          return false;
        }
        i := i + 1;
      }
      return true;
    }

    // The freeing loop of t_free.
    method FreeRange(v: int, n: nat)
      requires Valid() && AllMapped(g.pages, v, n)
      modifies `g, mem, phys, virt, tlb, tlb.nodes`next
      ensures Valid() && g.tabs == old(g.tabs)
      ensures g.pages == Removed(old(g.pages), v, n) && Contents() == Removed(old(Contents()), v, n)
      ensures forall k :: 0 <= k < |tlb.nodes| ==> tlb.nodes[k] in old(tlb.nodes)
    {
      hide Good, Bits, View;
      var i := 0;
      while i < n
        invariant 0 <= i <= n && Valid() && g.tabs == old(g.tabs)
        invariant g.pages == Removed(old(g.pages), v, i) && Contents() == Removed(old(Contents()), v, i)
        invariant forall k :: 0 <= k < |tlb.nodes| ==> tlb.nodes[k] in old(tlb.nodes)
      {
        RemovedExactly(old(g.pages), v, i, v + i);
        PagesInRange(mem[..], Phys(), Virt(), g, v + i);
        FreeOne(v + i);
        i := i + 1;
      }
    }

    // ---------- calls in sequence ----------

    // What put_value stores get_value returns.
    method PutThenGet(va: int, val: seq<Octet>) returns (ok: bool, r: Option<seq<Octet>>)
      requires Valid() && 0 <= va < SPACE && |val| <= MAX_INT
      modifies mem, tlb, tlb.nodes`next
      ensures Valid()
      ensures ok <==> Reaches(g.pages.Keys, va, |val|)
      ensures r == if ok then Some(val) else None
    {
      hide Good, Bits, View, Stored, Fetched, Reaches;
      ViewWhole(mem[..], Phys(), Virt(), g);
      ghost var view := Contents();
      ok := PutValue(va, val);
      r := GetValue(va, |val|);
      if ok {
        FetchedAfterStored(view, va, val);
      }
    }

    // Bytes that are allocated can be stored and read back.
    method MallocThenPut(val: seq<Octet>) returns (r: Allocation, out: Option<seq<Octet>>)
      requires Valid() && |val| <= MAX_INT
      modifies `g, mem, phys, virt, tlb, tlb.nodes`next
      ensures out == if r.Ok? then Some(val) else None
      ensures !r.Fault? ==> Valid()
    {
      hide Good, Bits, View, Frees, FirstRun, NewTables, Allocated, Added, Reaches, FreeRun;
      ghost var run;
      r, run := TMalloc(|val|);
      out := None;
      if r.Ok? {
        var ok;
        ok, out := PutThenGet(r.va, val);
      }
    }

    // Allocating and freeing the same bytes leaves nothing behind but new page tables.
    method MallocThenFree(bytes: nat) returns (r: Allocation)
      requires Valid() && bytes <= MAX_INT
      modifies `g, mem, phys, virt, tlb, tlb.nodes`next
      ensures r.Ok? ==> Valid() && g.pages == old(g.pages) && Contents() == old(Contents()) && Virt() == old(Virt())
      ensures r.Ok? ==> forall f :: 0 <= f < FRAMES ==>
                (Phys()[f] <==> old(Phys())[f] || exists i :: i in g.tabs && i !in old(g.tabs) && g.tabs[i] == f)
      ensures r.Ok? ==> forall i :: i in old(g.tabs) ==> i in g.tabs && g.tabs[i] == old(g.tabs)[i]
    {
      hide Good, Bits, View, FirstRun, NewTables, Allocated, Added, Removed, AllMapped;
      ghost var before, bits, marks, g0, view := mem[..], Phys(), Virt(), g, Contents();
      ghost var run;
      ViewWhole(before, bits, marks, g0);
      r, run := TMalloc(bytes);
      if !r.Ok? {
        return;
      }
      ghost var g1, start := g, StartAsWritten(run);
      AllocatedThere(g0, g1, mem[..], Phys(), Virt(), start, PagesFor(bytes));
      var ok := TFree(r.va, bytes);
      FreedAgain(g0, g1, g, view, start, PagesFor(bytes));
      SameMarks(before, bits, marks, g0, mem[..], Phys(), Virt(), g);
    }
  }

  ghost predicate AllMapped(pages: map<int, int>, v: int, n: nat) {
    forall k :: v <= k < v + n ==> k in pages
  }

  // The pages of a range are those that hold a byte of it.
  lemma FreedByBytes(pages: map<int, int>, va: int, size: int)
    requires 0 <= va && va % PGSIZE == 0 && size >= 1
    ensures PagesFor(size) >= 1
    ensures AllMapped(pages, va / PGSIZE, PagesFor(size)) <==> forall x :: va <= x < va + size ==> PageOf(x) in pages
    ensures AllMapped(pages, va / PGSIZE, PagesFor(size)) ==>
              forall p :: p in pages && p !in Removed(pages, va / PGSIZE, PagesFor(size)) <==>
                            exists x :: va <= x < va + size && PageOf(x) == p
  {
    var v, n := va / PGSIZE, PagesFor(size);
    PagesForExact(size);
    hide PagesFor, Removed;
    forall x | va <= x < va + size ensures v <= PageOf(x) < v + n {
    }
    forall p ensures v <= p < v + n ==> exists x :: va <= x < va + size && PageOf(x) == p
      ensures p in Removed(pages, v, n) <==> p in pages && !(v <= p < v + n)
    {
      RemovedExactly(pages, v, n, p);
      if v <= p < v + n {
        assert va <= p * PGSIZE < va + size && PageOf(p * PGSIZE) == p;
      }
    }
  }

  lemma MappedHasTable(mem: seq<Frame>, phys: seq<bool>, virt: seq<bool>, g: Layout, v: int, n: nat)
    requires Good(mem, phys, virt, g, {}, {}) && n >= 1
    ensures AllMapped(g.pages, v, n) ==> DirOf(v) in g.tabs
  {
    if AllMapped(g.pages, v, n) {
      assert v in g.pages;
    }
  }

  lemma TableIsNotPage(mem: seq<Frame>, phys: seq<bool>, virt: seq<bool>, g: Layout, v: int)
    requires Good(mem, phys, virt, g, {}, {}) && v in g.pages
    ensures DirOf(v) in g.tabs && g.tabs[DirOf(v)] != g.pages[v]
  {
    assert g.own[g.pages[v]] == Page(v);
  }

  lemma PagesInRange(mem: seq<Frame>, phys: seq<bool>, virt: seq<bool>, g: Layout, v: int)
    requires Good(mem, phys, virt, g, {}, {})
    ensures v in g.pages ==> 0 <= v < PAGES
  {
  }

  // The old translations are kept, the pages of the range are new, and so are exactly
  // the tables they need.
  ghost predicate Allocated(g: Layout, g': Layout, v: int, n: nat) {
    && (forall p :: p in g'.pages <==> p in g.pages || v <= p < v + n)
    && (forall p :: p in g.pages ==> g'.pages[p] == g.pages[p] && !(v <= p < v + n))
    && g'.tabs.Keys == g.tabs.Keys + NewTables(g.tabs, v, n)
    && (forall i :: i in g.tabs ==> g'.tabs[i] == g.tabs[i])
  }

  // The new pages have room for the bytes, and are no more than that takes.
  lemma AllocatedFits(g: Layout, g': Layout, v: int, bytes: nat)
    requires Allocated(g, g', v, PagesFor(bytes)) && 1 <= bytes < SPACE && 0 <= v && v + PagesFor(bytes) <= PAGES
    ensures Reaches(g'.pages.Keys, v * PGSIZE, bytes)
    ensures bytes <= PGSIZE * (|g'.pages| - |g.pages|) < bytes + PGSIZE
  {
    hide Reaches, PagesFor;
    PagesForExact(bytes);
    AllocatedCount(g, g', v, PagesFor(bytes));
    ReachesByBytes(g'.pages.Keys, v * PGSIZE, bytes);
    forall t | 0 <= t < bytes ensures BytePage(v * PGSIZE, t) in g'.pages {
      PageInRange(v, PagesFor(bytes), bytes, t);
    }
  }

  lemma PageInRange(v: int, n: int, bytes: int, t: int)
    requires 0 <= v && v + n <= PAGES && 0 <= t < bytes <= PGSIZE * n
    ensures v <= BytePage(v * PGSIZE, t) < v + n
  {
    assert (v * PGSIZE + t) % SPACE == v * PGSIZE + t;
  }

  lemma AllocatedCount(g: Layout, g': Layout, v: int, n: nat)
    requires Allocated(g, g', v, n)
    ensures |g'.pages| == |g.pages| + n
  {
    var range := Interval(v, n);
    assert g'.pages.Keys == g.pages.Keys + range && g.pages.Keys !! range;
    assert |g'.pages| == |g'.pages.Keys| && |g.pages| == |g.pages.Keys|;
  }

  ghost predicate NoneMapped(g: Layout, v: int, n: nat) {
    forall k :: v <= k < v + n ==> k !in g.pages
  }

  lemma StartRange(mem: seq<Frame>, phys: seq<bool>, virt: seq<bool>, g: Layout, view: map<int, Frame>, v: int, n: nat)
    requires Good(mem, phys, virt, g, {}, {}) && 0 <= v && v + n <= PAGES
    requires forall k :: v <= k < v + n ==> !virt[k]
    ensures |phys| == FRAMES && |virt| == PAGES
    ensures NoneMapped(g, v, n) && Allocated(g, g, v, 0) && Added(view, v, 0) == view && NewTables(g.tabs, v, 0) == {}
  {
  }

  lemma NextUnmarked(mem: seq<Frame>, phys: seq<bool>, virt: seq<bool>, g0: Layout, g: Layout, v: int, i: nat, n: nat)
    requires Good(mem, phys, virt, g, {}, {}) && 0 <= v && v + n <= PAGES && i < n
    requires NoneMapped(g0, v, n) && Allocated(g0, g, v, i)
    ensures v + i !in g.pages && |virt| == PAGES && !virt[v + i]
  {
  }

  lemma GrowRange(g0: Layout, g: Layout, g': Layout, view: map<int, Frame>, v: int, i: nat, f: int)
    requires Allocated(g0, g, v, i) && v + i !in g.pages && g'.pages == g.pages[v + i := f]
    requires g'.tabs.Keys == g.tabs.Keys + {DirOf(v + i)}
    requires forall d :: d in g.tabs ==> g'.tabs[d] == g.tabs[d]
    ensures Allocated(g0, g', v, i + 1)
    ensures Added(view, v, i + 1) == Added(view, v, i)[v + i := ZeroFrame()]
    ensures |NewTables(g0.tabs, v, i + 1)| == |NewTables(g0.tabs, v, i)| + if DirOf(v + i) in g.tabs then 0 else 1
  {
    GrowTables(g0, g, v, i);
    GrowMaps(g0, g, g', v, i, f);
    hide NewTables;
  }

  lemma GrowMaps(g0: Layout, g: Layout, g': Layout, v: int, i: nat, f: int)
    requires Allocated(g0, g, v, i) && v + i !in g.pages && g'.pages == g.pages[v + i := f]
    requires g'.tabs.Keys == g0.tabs.Keys + NewTables(g0.tabs, v, i + 1)
    requires forall d :: d in g.tabs ==> g'.tabs[d] == g.tabs[d]
    ensures Allocated(g0, g', v, i + 1)
  {
    hide NewTables;
  }

  lemma GrowTables(g0: Layout, g: Layout, v: int, i: nat)
    requires g.tabs.Keys == g0.tabs.Keys + NewTables(g0.tabs, v, i)
    ensures g.tabs.Keys + {DirOf(v + i)} == g0.tabs.Keys + NewTables(g0.tabs, v, i + 1)
    ensures |NewTables(g0.tabs, v, i + 1)| == |NewTables(g0.tabs, v, i)| + if DirOf(v + i) in g.tabs then 0 else 1
  {
    InsertCount(g0.tabs.Keys, NewTables(g0.tabs, v, i), g.tabs.Keys, DirOf(v + i), NewTables(g0.tabs, v, i + 1));
  }

  lemma InsertCount(before: set<int>, made: set<int>, now: set<int>, d: int, after: set<int>)
    requires now == before + made && after == made + if d in before then {} else {d}
    ensures now + {d} == before + after
    ensures |after| == |made| + if d in now then 0 else 1
  {
    if d in now {
      assert after == made;
    } else {
      assert after == made + {d};
    }
  }

  lemma AnnounceAndReserve(mem: seq<Frame>, phys: seq<bool>, virt: seq<bool>, g: Layout, v: int, f: int)
    requires Good(mem, phys, virt, g, {}, {}) && 0 <= v < PAGES && 0 <= f < FRAMES && !virt[v] && !phys[f]
    ensures v !in g.pages && Good(mem, phys[f := true], virt[v := true], g, {f}, {v})
  {
    AnnouncePage(phys, virt, g, {}, {}, v);
    ReserveFrame(phys, virt[v := true], g, {}, {v}, f);
    assert {} + {v} == {v} && {} + {f} == {f};
    hide Walks, Owned, Marked, FreeFramesZero;
  }

  lemma RunIsFree(bits: seq<bool>, n: nat, run: Option<nat>)
    requires n >= 1 && FirstRun(bits, RunLength(n), run)
    ensures run.Some? ==> FreeRun(bits, run.value, n)
    ensures run.None? && n >= 2 ==> !FreeRun(bits, 0, n)
  {
    if run.Some? {
      assert FreeRun(bits, run.value, RunLength(n));
    }
  }

  lemma FirstFree(bits: seq<bool>)
    requires Frees(bits) != []
    ensures 0 <= Frees(bits)[0] < |bits| && !bits[Frees(bits)[0]]
    ensures Frees(bits)[..1] == [Frees(bits)[0]]
    ensures |Frees(bits[Frees(bits)[0] := true])| == |Frees(bits)| - 1
  {
    FreesExact(bits);
    assert Frees(bits)[0] in Frees(bits);
    FreesTake(bits, Frees(bits)[0]);
  }

  lemma FirstFreeIsNotRoot(mem: seq<Frame>, phys: seq<bool>, virt: seq<bool>, g: Layout, r: set<int>, w: set<int>,
          t: int)
    requires Good(mem, phys, virt, g, r, w) && 0 <= t < FRAMES && !phys[t]
    ensures t != 0
  {
  }

  // What page_map reads: the directory entry and, where there is a table, the entry.
  lemma DirEntryFacts(mem: seq<Frame>, phys: seq<bool>, virt: seq<bool>, g: Layout, r: set<int>, w: set<int>, v: int)
    requires Good(mem, phys, virt, g, r, w) && 0 <= v < PAGES
    ensures Sized(mem) && 0 <= DirOf(v) < DIR_ENTRIES && 0 <= IndexOf(v) < TABLE_ENTRIES
    ensures Load(mem[0], DirOf(v)) == if DirOf(v) in g.tabs then g.tabs[DirOf(v)] else 0
    ensures v in g.pages ==> DirOf(v) in g.tabs
    ensures DirOf(v) in g.tabs ==> 0 < g.tabs[DirOf(v)] < FRAMES
    ensures DirOf(v) in g.tabs ==> (Load(mem[g.tabs[DirOf(v)]], IndexOf(v)) == if v in g.pages then g.pages[v] else 0)
    ensures v in g.pages ==> 0 < g.pages[v] < FRAMES
  {
    assert DirEntryOk(mem, g, DirOf(v)) && TableEntryOk(mem, g, v);
    if DirOf(v) in g.tabs { assert g.own[g.tabs[DirOf(v)]] == Table(DirOf(v)); }
    if v in g.pages { assert g.own[g.pages[v]] == Page(v); }
  }


  lemma FetchedWithin(view: map<int, Frame>, a: int, n: nat)
    requires Whole(view) && 0 <= a < SPACE && a / PGSIZE in view && n < PGSIZE - a % PGSIZE
    ensures view[a / PGSIZE][a % PGSIZE..a % PGSIZE + n] == Fetched(view, a, n)
  {
    assert PageAt(a, 0) == a / PGSIZE;
    FetchedExtend(view, a, n, 0);
    assert Fetched(view, a, 0) == [];
  }

  lemma StoredWithin(view: map<int, Frame>, a: int, val: seq<Octet>)
    requires Whole(view) && 0 <= a < SPACE && a / PGSIZE in view && |val| < PGSIZE - a % PGSIZE
    ensures view[a / PGSIZE := Splice(view[a / PGSIZE], a % PGSIZE, val)] == Stored(view, a, val)
  {
    assert PageAt(a, 0) == a / PGSIZE;
    StoredExtend(view, a, val, 0);
    StoredNothing(view, a);
    assert val[..0] == [] && val[..|val|] == val;
  }

  lemma CopyEnds(view: map<int, Frame>, a: int, val: seq<Octet>)
    requires 0 <= a < SPACE
    ensures Copying(a, val, 0, |val|, a % PGSIZE, a / PGSIZE, val) && Copied(a, |val|, 0) == 0
    ensures Stored(view, a, val[..0]) == view && val[..|val|] == val
  {
    StoredNothing(view, a);
  }

  lemma CopyBounds(a: int, val: seq<Octet>, i: int, left: int, o: int, p: int, rest: seq<Octet>)
    requires Copying(a, val, i, left, o, p, rest)
    ensures 0 <= Copied(a, |val|, i) <= |val|
    ensures left <= 0 ==> Copied(a, |val|, i) == |val|
  {
  }

  lemma StoredNothing(view: map<int, Frame>, a: int)
    ensures Stored(view, a, []) == view
  {
    forall p | p in view ensures Stored(view, a, [])[p] == view[p] {
      assert forall x :: Ahead(a, x) >= 0;
      assert StoredFrame(view[p], p, a, []) == view[p];
    }
  }

  lemma ReadView(mem: seq<Frame>, phys: seq<bool>, virt: seq<bool>, g: Layout, v: int)
    requires Good(mem, phys, virt, g, {}, {}) && v in g.pages
    ensures Sized(mem) && Whole(View(mem, g)) && View(mem, g).Keys == g.pages.Keys
    ensures 0 < g.pages[v] < FRAMES && View(mem, g)[v] == mem[g.pages[v]]
  {
    forall u | u in g.pages ensures 0 <= g.pages[u] < FRAMES {
      assert g.own[g.pages[u]] == Page(u);
    }
    assert g.own[g.pages[v]] == Page(v);
  }

  lemma ViewWhole(mem: seq<Frame>, phys: seq<bool>, virt: seq<bool>, g: Layout)
    requires Good(mem, phys, virt, g, {}, {})
    ensures Sized(mem) && Whole(View(mem, g)) && View(mem, g).Keys == g.pages.Keys
  {
    forall u | u in g.pages ensures 0 <= g.pages[u] < FRAMES {
      assert g.own[g.pages[u]] == Page(u);
    }
  }

  lemma WriteView(mem: seq<Frame>, phys: seq<bool>, virt: seq<bool>, g: Layout, v: int, content: Frame)
    requires Good(mem, phys, virt, g, {}, {}) && v in g.pages && |content| == PGSIZE
    ensures 0 < g.pages[v] < FRAMES
    ensures Good(mem[g.pages[v] := content], phys, virt, g, {}, {})
    ensures View(mem[g.pages[v] := content], g) == View(mem, g)[v := content]
  {
    WritePageKeeps(mem, g, v, content);
    hide Walks, Owned, Marked, FreeFramesZero, View;
  }

  lemma WalkFacts(mem: seq<Frame>, phys: seq<bool>, virt: seq<bool>, g: Layout, v: int)
    requires Good(mem, phys, virt, g, {}, {}) && 0 <= v < PAGES
    ensures Sized(mem) && Load(mem[0], DirOf(v)) < FRAMES
    ensures Walk(mem, v) == if v in g.pages then Some(g.pages[v]) else None
  {
    WalkFinds(mem, g, v);
    assert DirEntryOk(mem, g, DirOf(v));
    if DirOf(v) in g.tabs { assert g.own[g.tabs[DirOf(v)]] == Table(DirOf(v)); }
  }

  lemma SoundSized(mem: seq<Frame>, phys: seq<bool>, virt: seq<bool>, g: Layout, r: set<int>, w: set<int>)
    requires Good(mem, phys, virt, g, r, w)
    ensures Sized(mem) && |phys| == FRAMES && |virt| == PAGES
  {
  }

  ghost function Blank(): (r: seq<Frame>)
    ensures |r| == FRAMES
  {
    seq(FRAMES, _ => ZeroFrame())
  }

  lemma ZeroBits(bytes: seq<bv8>)
    requires forall i :: 0 <= i < |bytes| ==> bytes[i] == 0
    ensures forall i :: 0 <= i < 8 * |bytes| ==> !Bits(Msb, bytes)[i]
  {
  }

  lemma FirstOfAllFree(bits: seq<bool>)
    requires |bits| > 0 && forall i :: 0 <= i < |bits| ==> !bits[i]
    ensures |Frees(bits)| >= 1 && Frees(bits)[0] == 0
  {
    FreesExact(bits);
    assert 0 in Frees(bits);
    assert Frees(bits)[0] in Frees(bits);
  }

  lemma StoreZero(j: nat)
    requires ENTRY * j + ENTRY <= PGSIZE
    ensures Store(ZeroFrame(), j, 0) == ZeroFrame()
  {
    ToBytesZero(ENTRY);
  }

  lemma {:induction false} ToBytesZero(n: nat)
    ensures forall i :: 0 <= i < n ==> ToBytes(0, n)[i] == 0
  {
    if n == 0 {
    } else {
      ToBytesZero(n - 1);
    }
  }

  lemma BlankIsGood(phys: seq<bool>, virt: seq<bool>)
    requires |phys| == FRAMES && |virt| == PAGES
    requires forall i :: 0 <= i < FRAMES ==> (phys[i] <==> i == 0)
    requires forall i :: 0 <= i < PAGES ==> !virt[i]
    ensures Good(Blank(), phys, virt, Layout(map[], map[], map[0 := Root]), {}, {})
    ensures View(Blank(), Layout(map[], map[], map[0 := Root])) == map[]
  {
    var g := Layout(map[], map[], map[0 := Root]);
    forall i | 0 <= i < DIR_ENTRIES ensures DirEntryOk(Blank(), g, i) {
      LoadZero(i);
    }
    assert Walks(Blank(), g);
  }

  // ---------- laws of whole states ----------

  // The translations are determined by the layout: since no write to a page changes
  // the layout, no write changes a translation.
  lemma TranslationsFromLayout(mem: seq<Frame>, phys: seq<bool>, virt: seq<bool>, mem': seq<Frame>, phys': seq<bool>,
          virt': seq<bool>, g: Layout)
    requires Good(mem, phys, virt, g, {}, {}) && Good(mem', phys', virt', g, {}, {})
    ensures SameWalks(mem, mem') && phys' == phys && virt' == virt
  {
    forall v | 0 <= v < PAGES ensures Walk(mem', v) == Walk(mem, v) {
      WalkFinds(mem, g, v);
      WalkFinds(mem', g, v);
    }
  }

  ghost predicate SameWalks(mem: seq<Frame>, mem': seq<Frame>) {
    Sized(mem) && Sized(mem') && forall v :: 0 <= v < PAGES ==> Walk(mem', v) == Walk(mem, v)
  }

  lemma AllocatedThere(g: Layout, g': Layout, mem: seq<Frame>, phys: seq<bool>, virt: seq<bool>, v: int, n: nat)
    requires Allocated(g, g', v, n) && n >= 1 && Good(mem, phys, virt, g', {}, {})
    ensures AllMapped(g'.pages, v, n) && DirOf(v) in g'.tabs
  {
    assert v in g'.pages;
  }

  lemma FreedAgain(g: Layout, g1: Layout, g2: Layout, view: map<int, Frame>, v: int, n: nat)
    requires Allocated(g, g1, v, n) && g2.tabs == g1.tabs && g2.pages == Removed(g1.pages, v, n)
    requires view.Keys == g.pages.Keys
    ensures g2.pages == g.pages && Removed(Added(view, v, n), v, n) == view
    ensures forall i :: i in g.tabs ==> i in g2.tabs && g2.tabs[i] == g.tabs[i]
  {
    forall p ensures p in g2.pages <==> p in g.pages
      ensures p in g.pages ==> g2.pages[p] == g.pages[p]
    {
      RemovedExactly(g1.pages, v, n, p);
    }
    var last := Removed(Added(view, v, n), v, n);
    forall p ensures p in last <==> p in view
      ensures p in view ==> last[p] == view[p]
    {
      RemovedExactly(Added(view, v, n), v, n, p);
      AddedExactly(view, v, n, p);
    }
    assert g2.pages.Keys == g.pages.Keys && last.Keys == view.Keys;
    hide Removed, Added;
  }

  // Two states with the same pages mark the same pages, and the same frames but for
  // those of page tables only the second state has.
  lemma SameMarks(mem: seq<Frame>, phys: seq<bool>, virt: seq<bool>, g: Layout, mem': seq<Frame>, phys': seq<bool>,
          virt': seq<bool>, g': Layout)
    requires Good(mem, phys, virt, g, {}, {}) && Good(mem', phys', virt', g', {}, {}) && g'.pages == g.pages
    requires forall i :: i in g.tabs ==> i in g'.tabs && g'.tabs[i] == g.tabs[i]
    ensures virt' == virt && |phys| == |phys'| == FRAMES
    ensures forall f :: 0 <= f < FRAMES ==> (phys'[f] <==> phys[f] || exists i :: i in g'.tabs && i !in g.tabs && g'.tabs[i] == f)
  {
    forall f | 0 <= f < FRAMES
      ensures phys'[f] <==> phys[f] || exists i :: i in g'.tabs && i !in g.tabs && g'.tabs[i] == f
    {
      FrameUse(g, g', f);
    }
  }

  lemma FrameUse(g: Layout, g': Layout, f: int)
    requires Owned(g) && Owned(g') && g'.pages == g.pages
    requires forall i :: i in g.tabs ==> i in g'.tabs && g'.tabs[i] == g.tabs[i]
    ensures f in g'.own <==> f in g.own || exists i :: i in g'.tabs && i !in g.tabs && g'.tabs[i] == f
  {
    if f in g'.own {
      match g'.own[f]
      case Root =>
      case Table(i) => assert i in g'.tabs && g'.tabs[i] == f;
      case Page(v) => assert v in g.pages;
    }
    if f in g.own {
      match g.own[f]
      case Root =>
      case Table(i) => assert i in g'.tabs && g'.tabs[i] == f;
      case Page(v) => assert v in g'.pages;
    }
  }
}
