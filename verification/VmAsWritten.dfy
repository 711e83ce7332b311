/** Two departures of the memory manager that reach beyond one call of a loop: t_free
    checks its range in one page table only, and t_malloc goes on when no range is free. */
module VmAsWritten {
  import opened Bitmaps
  import opened Options
  import opened Vm
  import opened VmLaws
  import opened VmModel

  // ---------- the check of t_free ----------

  // Entry k counted from the page table in frame t. Behind the table follow the entries
  // that the bytes of the next frames spell, and behind the memory unknown ones.
  ghost function Entry(mem: seq<Frame>, beyond: int -> nat, t: nat, k: nat): nat
    requires Sized(mem)
  {
    var f := t + k / TABLE_ENTRIES;
    if f < FRAMES then Load(mem[f], k % TABLE_ENTRIES) else beyond(k)
  }

  // The checking loop from entry k on: the verdict, and the number of the last entry read.
  ghost predicate Passes(mem: seq<Frame>, beyond: int -> nat, t: nat, k: nat, n: nat)
    requires Sized(mem)
    decreases n
  {
    n == 0 || (Entry(mem, beyond, t, k) != 0 && Passes(mem, beyond, t, k + 1, n - 1))
  }

  ghost function LastRead(mem: seq<Frame>, beyond: int -> nat, t: nat, k: nat, n: nat): (last: int)
    requires Sized(mem)
    ensures if n == 0 then last == k - 1 else last >= k
    decreases n
  {
    if n == 0 then k - 1
    else if Entry(mem, beyond, t, k) == 0 then k
    else LastRead(mem, beyond, t, k + 1, n - 1)
  }

  lemma EntryOfPage(mem: seq<Frame>, beyond: int -> nat, g: Layout, v: int)
    requires Walks(mem, g) && Owned(g) && 0 <= v < PAGES && DirOf(v) in g.tabs
    ensures Sized(mem) && 0 <= g.tabs[DirOf(v)] < FRAMES
    ensures Entry(mem, beyond, g.tabs[DirOf(v)], IndexOf(v)) != 0 <==> v in g.pages
  {
    assert TableEntryOk(mem, g, v);
    if v in g.pages { assert g.own[g.pages[v]] == Page(v); }
  }

  // The first page behind the table of page v.
  function TableEnd(v: int): int {
    (DirOf(v) + 1) * TABLE_ENTRIES
  }

  lemma InTable(v: int)
    requires 0 <= v < PAGES
    ensures 0 <= IndexOf(v) < TABLE_ENTRIES && TableEnd(v) - v == TABLE_ENTRIES - IndexOf(v)
    ensures IndexOf(v) + 1 < TABLE_ENTRIES ==>
              && v + 1 < PAGES && DirOf(v + 1) == DirOf(v) && IndexOf(v + 1) == IndexOf(v) + 1
              && TableEnd(v + 1) == TableEnd(v)
  {
  }

  lemma AllMappedStep(pages: map<int, int>, v: int, n: nat)
    ensures AllMapped(pages, v, 0) && AllMapped(pages, v + 1, 0)
    ensures n > 0 ==> (AllMapped(pages, v, n) <==> v in pages && AllMapped(pages, v + 1, n - 1))
  {
  }

  // Every entry the check reads lies in the page table exactly when the range ends in
  // it or has a hole in it; the verdict is then that of the walk for each page.
  lemma FreeCheckCondition(mem: seq<Frame>, beyond: int -> nat, g: Layout, v: int, n: nat)
    requires Walks(mem, g) && Owned(g) && 0 <= v < PAGES && DirOf(v) in g.tabs
    ensures 0 <= g.tabs[DirOf(v)] < FRAMES
    ensures LastRead(mem, beyond, g.tabs[DirOf(v)], IndexOf(v), n) < TABLE_ENTRIES <==>
              IndexOf(v) + n <= TABLE_ENTRIES || !AllMapped(g.pages, v, TableEnd(v) - v)
    ensures LastRead(mem, beyond, g.tabs[DirOf(v)], IndexOf(v), n) < TABLE_ENTRIES ==>
              (Passes(mem, beyond, g.tabs[DirOf(v)], IndexOf(v), n) <==> AllMapped(g.pages, v, n))
  {
    EntryOfPage(mem, beyond, g, v);
    CheckReads(mem, beyond, g, v, n);
    CheckVerdict(mem, beyond, g, v, n);
    hide Walks, Owned, LastRead, Passes;
    if IndexOf(v) + n > TABLE_ENTRIES {
      assert TableEnd(v) - v < n;
    }
  }

  lemma {:induction false} CheckReads(mem: seq<Frame>, beyond: int -> nat, g: Layout, v: int, n: nat)
    requires Walks(mem, g) && Owned(g) && 0 <= v < PAGES && DirOf(v) in g.tabs
    requires 0 <= g.tabs[DirOf(v)] < FRAMES
    ensures LastRead(mem, beyond, g.tabs[DirOf(v)], IndexOf(v), n) < TABLE_ENTRIES <==>
              IndexOf(v) + n <= TABLE_ENTRIES || !AllMapped(g.pages, v, TableEnd(v) - v)
    decreases n
  {
    hide Walks, Owned, Entry, DirOf, IndexOf, TableEnd, AllMapped;
    EntryOfPage(mem, beyond, g, v);
    InTable(v);
    AllMappedStep(g.pages, v, n);
    AllMappedStep(g.pages, v, TableEnd(v) - v);
    if n > 0 && v in g.pages && IndexOf(v) + 1 < TABLE_ENTRIES {
      CheckReads(mem, beyond, g, v + 1, n - 1);
    }
  }

  lemma {:induction false} CheckVerdict(mem: seq<Frame>, beyond: int -> nat, g: Layout, v: int, n: nat)
    requires Walks(mem, g) && Owned(g) && 0 <= v < PAGES && DirOf(v) in g.tabs
    requires 0 <= g.tabs[DirOf(v)] < FRAMES
    ensures IndexOf(v) + n <= TABLE_ENTRIES ==>
              (Passes(mem, beyond, g.tabs[DirOf(v)], IndexOf(v), n) <==> AllMapped(g.pages, v, n))
    ensures IndexOf(v) + n > TABLE_ENTRIES && !AllMapped(g.pages, v, TableEnd(v) - v) ==>
              !Passes(mem, beyond, g.tabs[DirOf(v)], IndexOf(v), n)
    decreases n
  {
    hide Walks, Owned, Entry, DirOf, IndexOf, TableEnd, AllMapped;
    EntryOfPage(mem, beyond, g, v);
    InTable(v);
    AllMappedStep(g.pages, v, n);
    AllMappedStep(g.pages, v, TableEnd(v) - v);
    if n > 0 && v in g.pages && IndexOf(v) + 1 < TABLE_ENTRIES {
      CheckVerdict(mem, beyond, g, v + 1, n - 1);
    }
  }

  function Ones(): (f: Frame)
    ensures |f| == PGSIZE
  {
    seq(PGSIZE, _ => 1)
  }

  lemma EveryEntry(f: Frame, j: nat)
    requires |f| == PGSIZE && ENTRY * j + ENTRY <= PGSIZE
    ensures f == Ones() ==> Load(f, j) != 0
    ensures f == ZeroFrame() ==> Load(f, j) == 0
  {
    LoadZero(j);
    assert f[ENTRY * j..ENTRY * j + ENTRY] == [f[ENTRY * j]] + f[ENTRY * j..ENTRY * j + ENTRY][1..];
  }

  // Entries from k on that lie in the frame behind the table.
  lemma {:induction false} PassesBehind(mem: seq<Frame>, beyond: int -> nat, t: nat, k: nat, n: nat)
    requires Sized(mem) && t + 1 < FRAMES && TABLE_ENTRIES <= k && k + n <= 2 * TABLE_ENTRIES
    ensures mem[t + 1] == Ones() ==> Passes(mem, beyond, t, k, n)
    ensures mem[t + 1] == ZeroFrame() && n > 0 ==> !Passes(mem, beyond, t, k, n)
    decreases n
  {
    if n == 0 {
    } else {
      EveryEntry(mem[t + 1], k % TABLE_ENTRIES);
      hide Load;
      PassesBehind(mem, beyond, t, k + 1, n - 1);
    }
  }

  lemma {:induction false} CheckFollowsFrame(mem: seq<Frame>, beyond: int -> nat, g: Layout, v: int, n: nat)
    requires Walks(mem, g) && Owned(g) && 0 <= v < PAGES && DirOf(v) in g.tabs
    requires AllMapped(g.pages, v, TableEnd(v) - v) && TABLE_ENTRIES < IndexOf(v) + n <= 2 * TABLE_ENTRIES
    requires 0 <= g.tabs[DirOf(v)] < FRAMES - 1
    ensures mem[g.tabs[DirOf(v)] + 1] == Ones() ==> Passes(mem, beyond, g.tabs[DirOf(v)], IndexOf(v), n)
    ensures mem[g.tabs[DirOf(v)] + 1] == ZeroFrame() ==> !Passes(mem, beyond, g.tabs[DirOf(v)], IndexOf(v), n)
    decreases n
  {
    hide Walks, Owned, Entry, ZeroFrame, Ones, DirOf, IndexOf, TableEnd, AllMapped;
    EntryOfPage(mem, beyond, g, v);
    InTable(v);
    AllMappedStep(g.pages, v, TableEnd(v) - v);
    if IndexOf(v) + 1 < TABLE_ENTRIES {
      CheckFollowsFrame(mem, beyond, g, v + 1, n - 1);
    } else {
      PassesBehind(mem, beyond, g.tabs[DirOf(v)], TABLE_ENTRIES, n - 1);
    }
  }

  // Where the check reaches a frame that holds a page, what a user wrote to that page
  // decides, and one of the two verdicts is wrong.
  lemma CheckFollowsData(mem: seq<Frame>, beyond: int -> nat, phys: seq<bool>, virt: seq<bool>, g: Layout, v: int,
          n: nat, p: int)
    requires Good(mem, phys, virt, g, {}, {}) && 0 <= v < PAGES && DirOf(v) in g.tabs
    requires AllMapped(g.pages, v, TableEnd(v) - v) && TABLE_ENTRIES < IndexOf(v) + n <= 2 * TABLE_ENTRIES
    requires p in g.pages && g.pages[p] == g.tabs[DirOf(v)] + 1
    ensures 0 < g.pages[p] < FRAMES && 0 <= g.tabs[DirOf(v)]
    ensures var ones, zeros := mem[g.pages[p] := Ones()], mem[g.pages[p] := ZeroFrame()];
            && Good(ones, phys, virt, g, {}, {}) && Good(zeros, phys, virt, g, {}, {})
            && Sized(ones) && Sized(zeros)
            && Passes(ones, beyond, g.tabs[DirOf(v)], IndexOf(v), n)
            && !Passes(zeros, beyond, g.tabs[DirOf(v)], IndexOf(v), n)
  {
    WriteView(mem, phys, virt, g, p, Ones());
    WriteView(mem, phys, virt, g, p, ZeroFrame());
    EntryOfPage(mem, beyond, g, v);
    hide Walks, Owned, Marked, FreeFramesZero, Ones, ZeroFrame, AllMapped;
    CheckFollowsFrame(mem[g.pages[p] := Ones()], beyond, g, v, n);
    CheckFollowsFrame(mem[g.pages[p] := ZeroFrame()], beyond, g, v, n);
  }

  // There are such memories: the last two pages of the first table are mapped, the table
  // lies in frame 2 and one of the pages behind it, and the next page is not mapped.
  lemma StraddlingInput() returns (mem: seq<Frame>, phys: seq<bool>, virt: seq<bool>, g: Layout)
    ensures Good(mem, phys, virt, g, {}, {})
    ensures g.tabs == map[0 := 2] && g.pages == map[8191 := 1, 8190 := 3]
    ensures AllMapped(g.pages, 8191, TableEnd(8191) - 8191) && !AllMapped(g.pages, 8191, 2)
    ensures TABLE_ENTRIES < IndexOf(8191) + 2 <= 2 * TABLE_ENTRIES
    ensures g.pages[8190] == g.tabs[DirOf(8191)] + 1
  {
    hide Good, Store, Load, View, ZeroFrame, Blank, SetEntry, AllZero;
    phys, virt := seq(FRAMES, i => i == 0), seq(PAGES, _ => false);
    mem, g := Blank(), Layout(map[], map[], map[0 := Root]);
    BlankIsGood(phys, virt);
    mem, phys, virt, g := FirstPageMapped(mem, phys, virt, g, 8191, 1, 2);
    AnnounceAndReserve(mem, phys, virt, g, 8190, 3);
    phys, virt := phys[3 := true], virt[8190 := true];
    SoundSized(mem, phys, virt, g, {3}, {8190});
    MapPage(mem, phys, virt, g, {3}, {8190}, 8190, 3);
    mem, g := SetEntry(mem, g, 8190, 3), WithPage(g, 8190, 3);
    assert {3} - {3} == {} && {8190} - {8190} == {};
    assert 8192 !in g.pages;
  }

  lemma FirstPageMapped(mem: seq<Frame>, phys: seq<bool>, virt: seq<bool>, g: Layout, v: int, f: int, t: int)
    returns (mem': seq<Frame>, phys': seq<bool>, virt': seq<bool>, g': Layout)
    requires Good(mem, phys, virt, g, {}, {}) && 0 <= v < PAGES && 0 <= f < FRAMES && 0 <= t < FRAMES && f != t
    requires |phys| == FRAMES && |virt| == PAGES && !phys[f] && !phys[t] && !virt[v] && DirOf(v) !in g.tabs
    ensures Good(mem', phys', virt', g', {}, {})
    ensures phys' == phys[f := true][t := true] && virt' == virt[v := true]
    ensures g'.tabs == g.tabs[DirOf(v) := t] && g'.pages == g.pages[v := f]
  {
    hide Good, Store, Load, View, ZeroFrame, SetEntry;
    AnnounceAndReserve(mem, phys, virt, g, v, f);
    phys', virt' := phys[f := true], virt[v := true];
    SoundSized(mem, phys', virt', g, {f}, {v});
    forall j | 0 <= j < TABLE_ENTRIES ensures Load(ZeroFrame(), j) == 0 {
      LoadZero(j);
    }
    NewTable(mem, phys', virt', g, {f}, {v}, DirOf(v), t, ZeroFrame());
    mem' := mem[0 := Store(mem[0], DirOf(v), t)][t := ZeroFrame()];
    g', phys' := WithTable(g, DirOf(v), t), phys'[t := true];
    MapPage(mem', phys', virt', g', {f}, {v}, v, f);
    mem', g' := SetEntry(mem', g', v, f), WithPage(g', v, f);
    assert {f} - {f} == {} && {v} - {v} == {};
  }

  // The checking loop, where the memory does not end behind the page table.
  method CheckAsWritten(m: Memory, v: int, n: nat, ghost beyond: int -> nat) returns (ok: bool)
    requires m.Valid() && 0 <= v < PAGES && DirOf(v) in m.g.tabs && 0 <= m.g.tabs[DirOf(v)]
    requires m.g.tabs[DirOf(v)] + (IndexOf(v) + n) / TABLE_ENTRIES < FRAMES
    ensures Sized(m.mem[..])
    ensures ok <==> Passes(m.mem[..], beyond, m.g.tabs[DirOf(v)], IndexOf(v), n)
  {
    hide Good, Load, Bits, DirOf, IndexOf;
    SoundSized(m.mem[..], m.Phys(), m.Virt(), m.g, {}, {});
    DirEntryFacts(m.mem[..], m.Phys(), m.Virt(), m.g, {}, {}, v);
    var t := Load(m.mem[0], DirOf(v));
    var i := 0;
    while i < n
      invariant 0 <= i <= n
      invariant Passes(m.mem[..], beyond, t, IndexOf(v), n) <==> Passes(m.mem[..], beyond, t, IndexOf(v) + i, n - i)
    {
      var k := IndexOf(v) + i;
      assert k / TABLE_ENTRIES <= (IndexOf(v) + n) / TABLE_ENTRIES;
      if Load(m.mem[t + k / TABLE_ENTRIES], k % TABLE_ENTRIES) == 0 {
        return false;
      }
      i := i + 1;
    }
    return true;
  }

  // ---------- a range that is not free ----------

  // Where t_malloc starts, and when the range is new: a run was found, or a single page
  // is asked for and page 0 is free although the page after it is not.
  lemma RangeAsWrittenCondition(virt: seq<bool>, n: nat, run: Option<nat>)
    requires n >= 1 && FirstRun(virt, RunLength(n), run) && |virt| > 0
    ensures FreeRun(virt, StartAsWritten(run), n) <==> run.Some? || (n == 1 && !virt[0])
  {
    if run.Some? {
      assert FreeRun(virt, run.value, RunLength(n));
    } else if n >= 2 {
      assert !FreeRun(virt, 0, RunLength(n));
    }
  }

  // One turn of the loop of t_malloc over a page that is in use: the frame is marked
  // and page_map fails, which the loop ignores. From then on no layout of pages and
  // tables explains the bitmap: the frame is lost.
  method MapTakenAsWritten(m: Memory, v: int, f: int) returns (r: MapResult)
    requires m.Valid() && v in m.g.pages && 0 <= v < PAGES && 0 <= f < FRAMES
    requires |m.Phys()| == FRAMES && !m.Phys()[f]
    modifies m`g, m.mem, m.phys, m.virt
    ensures r.AlreadyMapped? && m.g == old(m.g) && m.mem[..] == old(m.mem[..])
    ensures m.Phys() == old(m.Phys())[f := true] && m.Virt() == old(m.Virt())
    ensures !Explained(m.mem[..], m.Phys(), m.Virt())
  {
    hide Good, Bits, View, Frees;
    hide Explained;
    ghost var mem, bits, marks, g := m.mem[..], m.Phys(), m.Virt(), m.g;
    SoundSized(mem, bits, marks, g, {}, {});
    TakenMarked(mem, bits, marks, g, v, f);
    Set(Msb, m.virt, v);
    Set(Msb, m.phys, f);
    r := m.PageMap(v, f);
    FrameLost(mem, bits, marks, g, f);
  }

  lemma TakenMarked(mem: seq<Frame>, phys: seq<bool>, virt: seq<bool>, g: Layout, v: int, f: int)
    requires Good(mem, phys, virt, g, {}, {}) && v in g.pages && 0 <= v < PAGES && 0 <= f < FRAMES
    requires |phys| == FRAMES && !phys[f]
    ensures |virt| == PAGES && virt[v := true] == virt
    ensures Good(mem, phys[f := true], virt, g, {f}, {})
  {
    ReserveFrame(phys, virt, g, {}, {}, f);
    assert {} + {f} == {f};
    assert virt[v];
    hide Walks, Owned, FreeFramesZero;
  }

  // Some layout accounts for every set bit.
  ghost predicate Explained(mem: seq<Frame>, phys: seq<bool>, virt: seq<bool>) {
    exists g: Layout :: Good(mem, phys, virt, g, {}, {})
  }

  lemma FrameLost(mem: seq<Frame>, phys: seq<bool>, virt: seq<bool>, g: Layout, f: int)
    requires Good(mem, phys, virt, g, {}, {}) && |phys| == FRAMES && 0 <= f < FRAMES && !phys[f]
    ensures !Explained(mem, phys[f := true], virt)
  {
    var marked := phys[f := true];
    forall g': Layout ensures !Good(mem, marked, virt, g', {}, {}) {
      if Walks(mem, g') && Owned(g') {
        SameFrames(mem, g, g', f);
      }
    }
  }

  // The bytes of the memory determine which frames are in use.
  lemma SameFrames(mem: seq<Frame>, g: Layout, g': Layout, f: int)
    requires Walks(mem, g) && Owned(g) && Walks(mem, g') && Owned(g')
    ensures f in g.own <==> f in g'.own
  {
    forall i ensures i in g.tabs <==> i in g'.tabs
      ensures i in g.tabs && i in g'.tabs ==> g.tabs[i] == g'.tabs[i]
    {
      SameTable(mem, g, g', i);
    }
    forall v ensures v in g.pages <==> v in g'.pages
      ensures v in g.pages && v in g'.pages ==> g.pages[v] == g'.pages[v]
    {
      SamePage(mem, g, g', v);
    }
    assert g.pages == g'.pages;
    FrameUse(g, g', f);
  }

  lemma SameTable(mem: seq<Frame>, g: Layout, g': Layout, i: int)
    requires Walks(mem, g) && Owned(g) && Walks(mem, g') && Owned(g')
    ensures i in g.tabs <==> i in g'.tabs
    ensures i in g.tabs && i in g'.tabs ==> g.tabs[i] == g'.tabs[i]
  {
    if i in g.tabs { assert g.own[g.tabs[i]] == Table(i); }
    if i in g'.tabs { assert g'.own[g'.tabs[i]] == Table(i); }
    assert 0 <= i < DIR_ENTRIES ==> DirEntryOk(mem, g, i) && DirEntryOk(mem, g', i);
  }

  lemma SamePage(mem: seq<Frame>, g: Layout, g': Layout, v: int)
    requires Walks(mem, g) && Owned(g) && Walks(mem, g') && Owned(g')
    ensures v in g.pages <==> v in g'.pages
    ensures v in g.pages && v in g'.pages ==> g.pages[v] == g'.pages[v]
  {
    if 0 <= v < PAGES {
      WalkFinds(mem, g, v);
      WalkFinds(mem, g', v);
    }
  }
}
