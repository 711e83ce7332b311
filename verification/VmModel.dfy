/** Simulated physical memory that holds its own page tables: the directory in frame
    0, page tables and user data in other frames of the same array. This module says
    what a proper memory is and how mapping, freeing and writing keep it proper. */
module VmModel {
  import opened Bitmaps
  import opened Options

  // The constants of the shipped configuration: 64 KiB pages, 8-byte entries, 1 GiB
  // of physical and 4 GiB of virtual memory.
  const PGSIZE := 65536
  const ENTRY := 8
  const DIR_ENTRIES := 8
  const TABLE_ENTRIES := 8192
  const FRAMES := 16384
  const PAGES := 65536
  const TLB_ENTRIES := 512

  newtype Octet = x: int | 0 <= x < 256

  type Frame = seq<Octet>

  // ---------- entries inside frames ----------

  function ToBytes(v: nat, n: nat): (b: seq<Octet>)
    ensures |b| == n
  {
    if n == 0 then [] else [(v % 256) as Octet] + ToBytes(v / 256, n - 1)
  }

  function FromBytes(b: seq<Octet>): nat {
    if b == [] then 0 else b[0] as nat + 256 * FromBytes(b[1..])
  }

  function Bound(n: nat): nat {
    if n == 0 then 1 else 256 * Bound(n - 1)
  }

  lemma {:induction false} BytesRoundTrip(v: nat, n: nat)
    requires v < Bound(n)
    ensures FromBytes(ToBytes(v, n)) == v
  {
    if n == 0 {
    } else {
      BytesRoundTrip(v / 256, n - 1);
      assert ToBytes(v, n)[1..] == ToBytes(v / 256, n - 1);
    }
  }

  // Entry j of a directory or table. Entries are frame numbers; 0 stands for NULL,
  // which is no loss since frame 0 is the directory itself.
  function Load(f: Frame, j: nat): nat
    requires ENTRY * j + ENTRY <= |f|
  {
    FromBytes(f[ENTRY * j..ENTRY * j + ENTRY])
  }

  function Store(f: Frame, j: nat, v: nat): (r: Frame)
    requires ENTRY * j + ENTRY <= |f|
    ensures |r| == |f|
  {
    f[..ENTRY * j] + ToBytes(v, ENTRY) + f[ENTRY * j + ENTRY..]
  }

  lemma LoadStore(f: Frame, j: nat, v: nat, k: nat)
    requires ENTRY * j + ENTRY <= |f| && ENTRY * k + ENTRY <= |f| && v < FRAMES
    ensures Load(Store(f, j, v), k) == if k == j then v else Load(f, k)
  {
    var r := Store(f, j, v);
    if k == j {
      assert r[ENTRY * j..ENTRY * j + ENTRY] == ToBytes(v, ENTRY);
      assert Bound(ENTRY) >= 65536;
      BytesRoundTrip(v, ENTRY);
    } else {
      assert r[ENTRY * k..ENTRY * k + ENTRY] == f[ENTRY * k..ENTRY * k + ENTRY];
    }
  }

  function ZeroFrame(): (f: Frame)
    ensures |f| == PGSIZE
  {
    seq(PGSIZE, _ => 0)
  }

  lemma {:induction false} ZeroBytes(b: seq<Octet>)
    requires forall i :: 0 <= i < |b| ==> b[i] == 0
    ensures FromBytes(b) == 0
  {
    if b == [] {
    } else {
      ZeroBytes(b[1..]);
    }
  }

  lemma LoadZero(j: nat)
    requires ENTRY * j + ENTRY <= PGSIZE
    ensures Load(ZeroFrame(), j) == 0
  {
    ZeroBytes(ZeroFrame()[ENTRY * j..ENTRY * j + ENTRY]);
  }

  // ---------- what a memory stands for ----------

  datatype Role = Root | Table(dir: int) | Page(page: int)

  // tabs: directory index to frame of its table; pages: page number to data frame;
  // own: what each used frame is used for.
  datatype Layout = Layout(tabs: map<int, int>, pages: map<int, int>, own: map<int, Role>)

  function DirOf(v: int): int { v / TABLE_ENTRIES }
  function IndexOf(v: int): int { v % TABLE_ENTRIES }

  ghost predicate Sized(mem: seq<Frame>) {
    |mem| == FRAMES && forall f :: 0 <= f < FRAMES ==> |mem[f]| == PGSIZE
  }

  // Directory entry i, and the table entry of page v, say what the layout says.
  ghost predicate DirEntryOk(mem: seq<Frame>, g: Layout, i: int)
    requires Sized(mem) && 0 <= i < DIR_ENTRIES
  {
    Load(mem[0], i) == if i in g.tabs then g.tabs[i] else 0
  }

  ghost predicate TableEntryOk(mem: seq<Frame>, g: Layout, v: int)
    requires Sized(mem) && 0 <= v < PAGES
  {
    DirOf(v) in g.tabs ==>
      && 0 <= g.tabs[DirOf(v)] < FRAMES
      && Load(mem[g.tabs[DirOf(v)]], IndexOf(v)) == if v in g.pages then g.pages[v] else 0
  }

  ghost predicate Walks(mem: seq<Frame>, g: Layout) {
    && Sized(mem)
    && (forall i :: 0 <= i < DIR_ENTRIES ==> DirEntryOk(mem, g, i))
    && (forall v :: 0 <= v < PAGES ==> TableEntryOk(mem, g, v))
  }

  // Every frame has at most one use: the directory, one table or one page.
  ghost predicate Owned(g: Layout) {
    && 0 in g.own && g.own[0] == Root
    && (forall i :: i in g.tabs ==> 0 <= i < DIR_ENTRIES && g.tabs[i] in g.own && g.own[g.tabs[i]] == Table(i))
    && (forall v :: v in g.pages ==>
          0 <= v < PAGES && DirOf(v) in g.tabs && g.pages[v] in g.own && g.own[g.pages[v]] == Page(v))
    && (forall f :: f in g.own ==> 0 <= f < FRAMES && match g.own[f]
                                   case Root => f == 0
                                   case Table(i) => i in g.tabs && g.tabs[i] == f
                                   case Page(v) => v in g.pages && g.pages[v] == f)
  }

  // Set bits of the two bitmaps: frames in use or reserved, pages mapped or announced.
  ghost predicate Marked(phys: seq<bool>, virt: seq<bool>, g: Layout, r: set<int>, w: set<int>) {
    && |phys| == FRAMES && |virt| == PAGES
    && (forall f :: 0 <= f < FRAMES ==> (phys[f] <==> f in g.own || f in r))
    && (forall v :: 0 <= v < PAGES ==> (virt[v] <==> v in g.pages || v in w))
    && (forall f :: f in r ==> 0 <= f < FRAMES && f !in g.own)
    && (forall v :: v in w ==> 0 <= v < PAGES && v !in g.pages)
  }

  ghost predicate FreeFramesZero(mem: seq<Frame>, g: Layout) {
    Sized(mem) && forall f :: 0 <= f < FRAMES && f !in g.own ==> mem[f] == ZeroFrame()
  }

  ghost predicate Good(mem: seq<Frame>, phys: seq<bool>, virt: seq<bool>, g: Layout, r: set<int>, w: set<int>) {
    Walks(mem, g) && Owned(g) && Marked(phys, virt, g, r, w) && FreeFramesZero(mem, g)
  }

  // The contents of the mapped pages.
  function View(mem: seq<Frame>, g: Layout): map<int, Frame> {
    map v | v in g.pages && 0 <= g.pages[v] < |mem| :: mem[g.pages[v]]
  }

  // ---------- writing to a page ----------

  // No write to a mapped page can change a translation or another page.
  lemma WritePageKeeps(mem: seq<Frame>, g: Layout, v: int, content: Frame)
    requires Walks(mem, g) && Owned(g) && FreeFramesZero(mem, g)
    requires v in g.pages && |content| == PGSIZE
    ensures 0 < g.pages[v] < FRAMES
    ensures var mem' := mem[g.pages[v] := content];
            && Walks(mem', g) && FreeFramesZero(mem', g)
            && View(mem', g) == View(mem, g)[v := content]
  {
    var f := g.pages[v];
    var mem' := mem[f := content];
    assert g.own[f] == Page(v);
    forall i | 0 <= i < DIR_ENTRIES ensures DirEntryOk(mem', g, i) {
      assert DirEntryOk(mem, g, i);
    }
    forall u | 0 <= u < PAGES ensures TableEntryOk(mem', g, u) {
      assert TableEntryOk(mem, g, u);
      if DirOf(u) in g.tabs { assert g.own[g.tabs[DirOf(u)]] == Table(DirOf(u)); }
    }
    hide Load;
    assert View(mem', g) == View(mem, g)[v := content] by { ViewWrite(mem, g, v, content); }
  }

  lemma ViewWrite(mem: seq<Frame>, g: Layout, v: int, content: Frame)
    requires |mem| == FRAMES && Owned(g) && v in g.pages
    ensures 0 <= g.pages[v] < FRAMES
    ensures View(mem[g.pages[v] := content], g) == View(mem, g)[v := content]
  {
    var mem' := mem[g.pages[v] := content];
    forall u | u in g.pages
      ensures 0 <= g.pages[u] < FRAMES && mem'[g.pages[u]] == if u == v then content else mem[g.pages[u]]
    {
      assert g.own[g.pages[u]] == Page(u) && g.own[g.pages[v]] == Page(v);
    }
  }

  // ---------- reserving ----------

  lemma ReserveFrame(phys: seq<bool>, virt: seq<bool>, g: Layout, r: set<int>, w: set<int>, f: int)
    requires Marked(phys, virt, g, r, w) && 0 <= f < FRAMES && !phys[f]
    ensures f !in g.own && f !in r && Marked(phys[f := true], virt, g, r + {f}, w)
  {
  }

  lemma AnnouncePage(phys: seq<bool>, virt: seq<bool>, g: Layout, r: set<int>, w: set<int>, v: int)
    requires Marked(phys, virt, g, r, w) && 0 <= v < PAGES && !virt[v]
    ensures v !in g.pages && Marked(phys, virt[v := true], g, r, w + {v})
  {
  }

  // ---------- a new page table ----------

  function WithTable(g: Layout, i: int, t: int): Layout {
    g.(tabs := g.tabs[i := t], own := g.own[t := Table(i)])
  }

  ghost predicate AllZero(f: Frame) {
    |f| == PGSIZE && forall j :: 0 <= j < TABLE_ENTRIES ==> Load(f, j) == 0
  }

  lemma NewTableWalks(mem: seq<Frame>, g: Layout, i: int, t: int, zeroed: Frame)
    requires Walks(mem, g) && Owned(g) && 0 <= i < DIR_ENTRIES && i !in g.tabs
    requires 0 < t < FRAMES && t !in g.own && AllZero(zeroed)
    ensures Walks(mem[0 := Store(mem[0], i, t)][t := zeroed], WithTable(g, i, t))
  {
    var mem' := mem[0 := Store(mem[0], i, t)][t := zeroed];
    var g' := WithTable(g, i, t);
    forall k | 0 <= k < DIR_ENTRIES ensures DirEntryOk(mem', g', k) {
      assert DirEntryOk(mem, g, k);
      LoadStore(mem[0], i, t, k);
    }
    hide Load, Store;
    forall u | 0 <= u < PAGES ensures TableEntryOk(mem', g', u) {
      assert TableEntryOk(mem, g, u);
      if DirOf(u) == i {
        assert u !in g.pages;
        assert 0 <= IndexOf(u) < TABLE_ENTRIES;
      } else if DirOf(u) in g.tabs {
        assert g.own[g.tabs[DirOf(u)]] == Table(DirOf(u));
      }
    }
  }

  lemma NewTableRest(mem: seq<Frame>, phys: seq<bool>, virt: seq<bool>, g: Layout, r: set<int>, w: set<int>, i: int,
          t: int, zeroed: Frame)
    requires Owned(g) && Marked(phys, virt, g, r, w) && FreeFramesZero(mem, g)
    requires 0 <= i < DIR_ENTRIES && i !in g.tabs && 0 <= t < FRAMES && !phys[t] && |zeroed| == PGSIZE
    ensures 0 < t && t !in g.own && t !in r
    ensures var g' := WithTable(g, i, t);
            && Owned(g') && Marked(phys[t := true], virt, g', r, w)
            && FreeFramesZero(mem[0 := Store(mem[0], i, t)][t := zeroed], g')
            && View(mem[0 := Store(mem[0], i, t)][t := zeroed], g') == View(mem, g)
  {
    assert t !in g.own;
    hide Store;
    var mem' := mem[0 := Store(mem[0], i, t)][t := zeroed];
    forall v | v in g.pages ensures 0 <= g.pages[v] < FRAMES && mem'[g.pages[v]] == mem[g.pages[v]] {
      assert g.own[g.pages[v]] == Page(v);
    }
  }

  lemma NewTable(mem: seq<Frame>, phys: seq<bool>, virt: seq<bool>, g: Layout, r: set<int>, w: set<int>, i: int,
          t: int, zeroed: Frame)
    requires Good(mem, phys, virt, g, r, w)
    requires 0 <= i < DIR_ENTRIES && i !in g.tabs && 0 <= t < FRAMES && !phys[t] && AllZero(zeroed)
    ensures 0 < t
    ensures Good(mem[0 := Store(mem[0], i, t)][t := zeroed], phys[t := true], virt, WithTable(g, i, t), r, w)
    ensures View(mem[0 := Store(mem[0], i, t)][t := zeroed], WithTable(g, i, t)) == View(mem, g)
  {
    NewTableRest(mem, phys, virt, g, r, w, i, t, zeroed);
    NewTableWalks(mem, g, i, t, zeroed);
    hide Walks, Owned, Marked, FreeFramesZero, View, Store;
  }

  // ---------- mapping a page ----------

  function WithPage(g: Layout, v: int, f: int): Layout {
    g.(pages := g.pages[v := f], own := g.own[f := Page(v)])
  }

  // The memory after writing the table entry of page v.
  function SetEntry(mem: seq<Frame>, g: Layout, v: int, f: int): seq<Frame>
    requires DirOf(v) in g.tabs && 0 <= g.tabs[DirOf(v)] < |mem| && 0 <= v
    requires ENTRY * IndexOf(v) + ENTRY <= |mem[g.tabs[DirOf(v)]]| && 0 <= f
  {
    var t := g.tabs[DirOf(v)];
    mem[t := Store(mem[t], IndexOf(v), f)]
  }

  // Which entries a write to the entry of page v changes.
  lemma SetEntryWalk(mem: seq<Frame>, g: Layout, v: int, f: int, u: int)
    requires Walks(mem, g) && Owned(g) && 0 <= v < PAGES && DirOf(v) in g.tabs && 0 <= f < FRAMES && 0 <= u < PAGES
    ensures 0 < g.tabs[DirOf(v)] < FRAMES && ENTRY * IndexOf(v) + ENTRY <= PGSIZE
    ensures DirOf(u) in g.tabs ==> 0 <= g.tabs[DirOf(u)] < FRAMES && ENTRY * IndexOf(u) + ENTRY <= PGSIZE
    ensures DirOf(u) in g.tabs ==>
              Load(SetEntry(mem, g, v, f)[g.tabs[DirOf(u)]], IndexOf(u)) ==
              if u == v then f else Load(mem[g.tabs[DirOf(u)]], IndexOf(u))
  {
    var t := g.tabs[DirOf(v)];
    assert g.own[t] == Table(DirOf(v));
    if DirOf(u) in g.tabs {
      assert g.own[g.tabs[DirOf(u)]] == Table(DirOf(u));
      if g.tabs[DirOf(u)] == t {
        assert DirOf(u) == DirOf(v);
        assert u == TABLE_ENTRIES * DirOf(u) + IndexOf(u);
        LoadStore(mem[t], IndexOf(v), f, IndexOf(u));
      }
    }
  }

  lemma MapWalks(mem: seq<Frame>, g: Layout, v: int, f: int)
    requires Walks(mem, g) && Owned(g) && 0 <= v < PAGES && DirOf(v) in g.tabs && 0 <= f < FRAMES && f !in g.own
    ensures 0 < g.tabs[DirOf(v)] < FRAMES
    ensures Walks(SetEntry(mem, g, v, f), WithPage(g, v, f))
  {
    var g' := WithPage(g, v, f);
    SetEntryWalk(mem, g, v, f, v);
    var mem' := SetEntry(mem, g, v, f);
    forall i | 0 <= i < DIR_ENTRIES ensures DirEntryOk(mem', g', i) {
      assert DirEntryOk(mem, g, i);
    }
    forall u | 0 <= u < PAGES ensures TableEntryOk(mem', g', u) {
      assert TableEntryOk(mem, g, u);
      SetEntryWalk(mem, g, v, f, u);
    }
  }

  lemma MapRest(mem: seq<Frame>, phys: seq<bool>, virt: seq<bool>, g: Layout, r: set<int>, w: set<int>, v: int, f: int)
    requires Walks(mem, g) && Owned(g) && Marked(phys, virt, g, r, w) && FreeFramesZero(mem, g)
    requires v in w && f in r && DirOf(v) in g.tabs
    ensures 0 < g.tabs[DirOf(v)] < FRAMES && f !in g.own && 0 < f < FRAMES && 0 <= v < PAGES
    ensures var g' := WithPage(g, v, f);
            && Owned(g') && Marked(phys, virt, g', r - {f}, w - {v})
            && FreeFramesZero(SetEntry(mem, g, v, f), g')
            && View(SetEntry(mem, g, v, f), g') == View(mem, g)[v := ZeroFrame()]
  {
    var t := g.tabs[DirOf(v)];
    assert g.own[t] == Table(DirOf(v));
    assert mem[f] == ZeroFrame();
    hide Store, ZeroFrame;
    var mem' := SetEntry(mem, g, v, f);
    forall u | u in g.pages ensures 0 <= g.pages[u] < FRAMES && mem'[g.pages[u]] == mem[g.pages[u]] {
      assert g.own[g.pages[u]] == Page(u);
    }
  }

  lemma MapPage(mem: seq<Frame>, phys: seq<bool>, virt: seq<bool>, g: Layout, r: set<int>, w: set<int>, v: int, f: int)
    requires Good(mem, phys, virt, g, r, w) && v in w && f in r && DirOf(v) in g.tabs
    ensures 0 < g.tabs[DirOf(v)] < FRAMES && 0 < f < FRAMES && 0 <= v < PAGES && v !in g.pages
    ensures Good(SetEntry(mem, g, v, f), phys, virt, WithPage(g, v, f), r - {f}, w - {v})
    ensures View(SetEntry(mem, g, v, f), WithPage(g, v, f)) == View(mem, g)[v := ZeroFrame()]
  {
    MapRest(mem, phys, virt, g, r, w, v, f);
    MapWalks(mem, g, v, f);
    hide Walks, Owned, FreeFramesZero, View, SetEntry;
  }

  // ---------- freeing a page ----------

  function WithoutPage(g: Layout, v: int): Layout
    requires v in g.pages
  {
    g.(pages := g.pages - {v}, own := g.own - {g.pages[v]})
  }

  function Wipe(mem: seq<Frame>, g: Layout, v: int): seq<Frame>
    requires v in g.pages && 0 <= g.pages[v] < |mem|
  {
    mem[g.pages[v] := ZeroFrame()]
  }

  lemma FreeWalks(mem: seq<Frame>, g: Layout, v: int)
    requires Walks(mem, g) && Owned(g) && FreeFramesZero(mem, g) && v in g.pages
    ensures 0 <= v < PAGES && DirOf(v) in g.tabs && 0 < g.pages[v] < FRAMES && 0 < g.tabs[DirOf(v)] < FRAMES
    ensures Walks(SetEntry(Wipe(mem, g, v), g, v, 0), WithoutPage(g, v))
  {
    WritePageKeeps(mem, g, v, ZeroFrame());
    var mem1 := Wipe(mem, g, v);
    var g' := WithoutPage(g, v);
    SetEntryWalk(mem1, g, v, 0, v);
    var mem' := SetEntry(mem1, g, v, 0);
    forall i | 0 <= i < DIR_ENTRIES ensures DirEntryOk(mem', g', i) {
      assert DirEntryOk(mem1, g, i);
    }
    forall u | 0 <= u < PAGES ensures TableEntryOk(mem', g', u) {
      assert TableEntryOk(mem1, g, u);
      SetEntryWalk(mem1, g, v, 0, u);
    }
  }

  lemma FreeRest(mem: seq<Frame>, phys: seq<bool>, virt: seq<bool>, g: Layout, r: set<int>, w: set<int>, v: int)
    requires Walks(mem, g) && Owned(g) && Marked(phys, virt, g, r, w) && FreeFramesZero(mem, g) && v in g.pages
    ensures 0 <= v < PAGES && DirOf(v) in g.tabs && 0 < g.pages[v] < FRAMES && 0 < g.tabs[DirOf(v)] < FRAMES
    ensures var g' := WithoutPage(g, v);
            var mem' := SetEntry(Wipe(mem, g, v), g, v, 0);
            && Owned(g') && Marked(phys[g.pages[v] := false], virt[v := false], g', r, w)
            && FreeFramesZero(mem', g')
            && View(mem', g') == View(mem, g) - {v}
  {
    var f, t := g.pages[v], g.tabs[DirOf(v)];
    assert g.own[t] == Table(DirOf(v)) && g.own[f] == Page(v);
    FreeMarked(phys, virt, g, r, w, v);
    FreeMemory(mem, g, v);
    hide Owned, Marked, FreeFramesZero, View, SetEntry, Wipe, Walks;
  }

  lemma FreeMarked(phys: seq<bool>, virt: seq<bool>, g: Layout, r: set<int>, w: set<int>, v: int)
    requires Owned(g) && Marked(phys, virt, g, r, w) && v in g.pages
    ensures 0 <= v < PAGES && 0 <= g.pages[v] < FRAMES
    ensures Owned(WithoutPage(g, v)) && Marked(phys[g.pages[v] := false], virt[v := false], WithoutPage(g, v), r, w)
  {
    assert g.own[g.pages[v]] == Page(v);
  }

  lemma FreeMemory(mem: seq<Frame>, g: Layout, v: int)
    requires Owned(g) && FreeFramesZero(mem, g) && v in g.pages
    ensures 0 <= v < PAGES && DirOf(v) in g.tabs && 0 < g.pages[v] < FRAMES && 0 < g.tabs[DirOf(v)] < FRAMES
    ensures var mem' := SetEntry(Wipe(mem, g, v), g, v, 0);
            FreeFramesZero(mem', WithoutPage(g, v)) && View(mem', WithoutPage(g, v)) == View(mem, g) - {v}
  {
    var f, t := g.pages[v], g.tabs[DirOf(v)];
    assert g.own[t] == Table(DirOf(v)) && g.own[f] == Page(v);
    hide Store, ZeroFrame;
    var mem' := SetEntry(Wipe(mem, g, v), g, v, 0);
    forall u | u in g.pages && u != v ensures 0 <= g.pages[u] < FRAMES && mem'[g.pages[u]] == mem[g.pages[u]] {
      assert g.own[g.pages[u]] == Page(u);
    }
  }

  lemma FreePage(mem: seq<Frame>, phys: seq<bool>, virt: seq<bool>, g: Layout, v: int)
    requires Good(mem, phys, virt, g, {}, {}) && v in g.pages
    ensures 0 <= v < PAGES && DirOf(v) in g.tabs && 0 < g.pages[v] < FRAMES && 0 < g.tabs[DirOf(v)] < FRAMES
    ensures var g' := WithoutPage(g, v);
            var mem' := SetEntry(Wipe(mem, g, v), g, v, 0);
            && Good(mem', phys[g.pages[v] := false], virt[v := false], g', {}, {})
            && View(mem', g') == View(mem, g) - {v}
  {
    FreeRest(mem, phys, virt, g, {}, {}, v);
    FreeWalks(mem, g, v);
    hide Walks, Owned, FreeFramesZero, View, SetEntry, Wipe, Marked;
  }
}
