/** Laws of the memory manager: what a write means to later reads, page accounting,
    and where the freeing code of the source departs from it. */
module VmLaws {
  import AddressCodec
  import opened Bitmaps
  import opened Options
  import opened VmModel

  // ---------- memory by address ----------

  const SPACE := 4294967296
  const MAX_INT := 2147483647

  function Byte(view: map<int, Frame>, x: int): Octet {
    var p, o := x / PGSIZE, x % PGSIZE;
    if p in view && o < |view[p]| then view[p][o] else 0
  }

  // The distance from address a up to x; the page after the last one is the first.
  function Ahead(a: int, x: int): int {
    (x - a) % SPACE
  }

  ghost predicate Whole(view: map<int, Frame>) {
    forall p :: p in view ==> 0 <= p < PAGES && |view[p]| == PGSIZE
  }

  // The n bytes from address a on.
  function Fetched(view: map<int, Frame>, a: int, n: nat): (r: seq<Octet>)
    ensures |r| == n
  {
    seq(n, t requires 0 <= t < n => Byte(view, (a + t) % SPACE))
  }

  // The view after val has been stored at address a.
  function Stored(view: map<int, Frame>, a: int, val: seq<Octet>): (r: map<int, Frame>)
    ensures r.Keys == view.Keys
  {
    map p | p in view :: StoredFrame(view[p], p, a, val)
  }

  function StoredFrame(f: Frame, p: int, a: int, val: seq<Octet>): (r: Frame)
    ensures |r| == |f|
  {
    seq(|f|, o requires 0 <= o < |f| =>
      var t := Ahead(a, p * PGSIZE + o);
      if t < |val| then val[t] else f[o])
  }

  lemma StoredByte(view: map<int, Frame>, a: int, val: seq<Octet>, x: int)
    requires Whole(view) && 0 <= x < SPACE && x / PGSIZE in view
    ensures Byte(Stored(view, a, val), x) == if Ahead(a, x) < |val| then val[Ahead(a, x)] else Byte(view, x)
  {
    assert x == x / PGSIZE * PGSIZE + x % PGSIZE;
  }

  // How many pages n bytes from offset off reach. An access of no bytes still needs its page.
  function Touched(off: int, n: nat): int {
    if off + n <= PGSIZE then 1 else (off + n + PGSIZE - 1) / PGSIZE
  }

  function PageAt(a: int, i: int): int {
    (a / PGSIZE + i) % PAGES
  }

  ghost predicate Reaches(pages: set<int>, a: int, n: nat) {
    forall i :: 0 <= i < Touched(a % PGSIZE, n) ==> PageAt(a, i) in pages
  }

  lemma PageOffset(a: int, t: int)
    requires 0 <= a < SPACE && 0 <= t
    ensures PageAt(a, (a % PGSIZE + t) / PGSIZE) == (a + t) % SPACE / PGSIZE
  {
    assert a == a / PGSIZE * PGSIZE + a % PGSIZE;
  }

  lemma PageOfByte(pages: set<int>, a: int, n: nat, t: int)
    requires Reaches(pages, a, n) && 0 <= a < SPACE && 0 <= t < n
    ensures (a + t) % SPACE / PGSIZE in pages
  {
    var i := (a % PGSIZE + t) / PGSIZE;
    PageOffset(a, t);
    assert 0 <= i < Touched(a % PGSIZE, n) by {
      hide Reaches;
    }
  }

  lemma AheadBy(a: int, t: int)
    requires 0 <= a < SPACE && 0 <= t < SPACE
    ensures Ahead(a, (a + t) % SPACE) == t
  {
  }

  // What was stored is read back, over any number of pages.
  lemma FetchedAfterStored(view: map<int, Frame>, a: int, val: seq<Octet>)
    requires Whole(view) && 0 <= a < SPACE && |val| <= SPACE && Reaches(view.Keys, a, |val|)
    ensures Fetched(Stored(view, a, val), a, |val|) == val
  {
    hide Reaches, Whole, Byte, Stored, Ahead;
    forall t | 0 <= t < |val| ensures Fetched(Stored(view, a, val), a, |val|)[t] == val[t] {
      PageOfByte(view.Keys, a, |val|, t);
      StoredByte(view, a, val, (a + t) % SPACE);
      AheadBy(a, t);
    }
  }

  // A range that shares no byte with the stored one reads as before.
  lemma FetchedElsewhere(view: map<int, Frame>, a: int, val: seq<Octet>, b: int, n: nat)
    requires Whole(view) && 0 <= a < SPACE && 0 <= b < SPACE && a + |val| <= SPACE && b + n <= SPACE
    requires Reaches(view.Keys, b, n) && (b + n <= a || a + |val| <= b)
    ensures Fetched(Stored(view, a, val), b, n) == Fetched(view, b, n)
  {
    forall t | 0 <= t < n ensures Fetched(Stored(view, a, val), b, n)[t] == Fetched(view, b, n)[t] {
      PageOfByte(view.Keys, b, n, t);
      StoredByte(view, a, val, (b + t) % SPACE);
      assert (b + t) % SPACE == b + t;
    }
  }

  function PageOf(x: int): int {
    x / PGSIZE
  }

  // The page of byte t of an access at a.
  function BytePage(a: int, t: int): int {
    PageOf((a + t) % SPACE)
  }

  // An access reaches its pages exactly when the page of each of its bytes is there.
  lemma ReachesByBytes(pages: set<int>, a: int, n: nat)
    requires 0 <= a < SPACE && 1 <= n <= SPACE
    ensures Reaches(pages, a, n) <==> forall t :: 0 <= t < n ==> BytePage(a, t) in pages
  {
    if Reaches(pages, a, n) {
      forall t | 0 <= t < n ensures BytePage(a, t) in pages {
        PageOfByte(pages, a, n, t);
      }
    }
    if forall t :: 0 <= t < n ==> BytePage(a, t) in pages {
      forall i | 0 <= i < Touched(a % PGSIZE, n) ensures PageAt(a, i) in pages {
        var t := ByteIn(a, n, i);
        assert BytePage(a, t) in pages;
      }
    }
  }

  // An access of no bytes reaches the page of its address.
  lemma ReachesNothing(pages: set<int>, a: int)
    requires 0 <= a < SPACE
    ensures Reaches(pages, a, 0) <==> PageOf(a) in pages
  {
    assert PageAt(a, 0) == PageOf(a);
  }

  // The split of an address into page number and offset, and of the page number into the
  // indices of directory and table, is that of extract_bits for 64 KiB pages.
  lemma SplitIsExtract(va: nat)
    requires va < SPACE
    ensures var l := AddressCodec.Layout(16, 13, 3, 8192, 8);
            && AddressCodec.Fits(l)
            && AddressCodec.DirIndex(l, va) == DirOf(va / PGSIZE)
            && AddressCodec.TableIndex(l, va) == IndexOf(va / PGSIZE)
            && AddressCodec.Offset(l, va) == va % PGSIZE
  {
    hide AddressCodec.Extract, AddressCodec.Pow2;
    AddressCodec.ExtractExact(va, 1, 3);
    AddressCodec.ExtractExact(va, 4, 13);
    AddressCodec.ExtractExact(va, 17, 16);
    AddressCodec.ShippedPowers();
    assert va / 536870912 == va / PGSIZE / TABLE_ENTRIES;
  }

  // Some byte of the access lies in its i-th page.
  lemma ByteIn(a: int, n: nat, i: int) returns (t: int)
    requires 0 <= a < SPACE && 1 <= n && 0 <= i < Touched(a % PGSIZE, n)
    ensures 0 <= t < n && BytePage(a, t) == PageAt(a, i)
  {
    t := if i == 0 then 0 else i * PGSIZE - a % PGSIZE;
    PageOffset(a, t);
  }

  // ---------- one chunk of a copy loop ----------

  // How many bytes have been copied when page i is about to be handled.
  function Done(a: int, i: int): int {
    if i == 0 then 0 else i * PGSIZE - a % PGSIZE
  }

  function OffsetIn(a: int, i: int): int {
    if i == 0 then a % PGSIZE else 0
  }

  function Chunk(a: int, n: int, i: int): int {
    if n - Done(a, i) > PGSIZE - OffsetIn(a, i) then PGSIZE - OffsetIn(a, i) else n - Done(a, i)
  }

  function Copied(a: int, n: int, i: int): int {
    if Done(a, i) <= n then Done(a, i) else n
  }

  // One turn of the loops that walk a range: the counters stay in step with the page.
  lemma NextChunk(a: int, n: nat, i: int)
    requires 0 <= a < SPACE && n <= MAX_INT && 0 <= i && n - Done(a, i) > 0
    ensures 0 <= Done(a, i) && OffsetIn(a, i + 1) == 0
    ensures n - Done(a, i) - (PGSIZE - OffsetIn(a, i)) == n - Done(a, i + 1)
    ensures Done(a, i) + Chunk(a, n, i) == Copied(a, n, i + 1)
    ensures (PageAt(a, i) + 1) % PAGES == PageAt(a, i + 1)
    ensures i == 0 || i < Touched(a % PGSIZE, n)
    ensures n - Done(a, i + 1) <= 0 <==> i + 1 >= Touched(a % PGSIZE, n)
  {
  }

  lemma ChunkPosition(a: int, i: int, p: int, o: int)
    requires 0 <= a < SPACE && 0 <= i && i * PGSIZE < SPACE - PGSIZE && 0 <= p < PAGES && 0 <= o < PGSIZE
    ensures p == PageAt(a, i) && o >= OffsetIn(a, i) ==> Ahead(a, p * PGSIZE + o) == Done(a, i) + o - OffsetIn(a, i)
    ensures p == PageAt(a, i) && o < OffsetIn(a, i) ==> Ahead(a, p * PGSIZE + o) >= SPACE - PGSIZE
    ensures p != PageAt(a, i) ==> Ahead(a, p * PGSIZE + o) < Done(a, i) || Ahead(a, p * PGSIZE + o) >= Done(a, i) + PGSIZE - OffsetIn(a, i)
  {
    var v, off := a / PGSIZE, a % PGSIZE;
    assert a == v * PGSIZE + off;
    var d := (p - v) % PAGES;
    assert p == PageAt(a, i) <==> d == i;
    var k := (p - v) / PAGES;
    assert p - v == k * PAGES + d;
    var y := p * PGSIZE + o - a;
    assert y == k * SPACE + (d * PGSIZE + o - off);
    if d * PGSIZE + o - off >= 0 {
      assert Ahead(a, p * PGSIZE + o) == d * PGSIZE + o - off;
    } else {
      assert Ahead(a, p * PGSIZE + o) == d * PGSIZE + o - off + SPACE;
    }
  }

  lemma StoredExtend(view: map<int, Frame>, a: int, val: seq<Octet>, i: int)
    requires Whole(view) && 0 <= a < SPACE && |val| <= MAX_INT
    requires 0 <= i && 0 <= Done(a, i) <= |val| && PageAt(a, i) in view
    ensures 0 <= Chunk(a, |val|, i) <= PGSIZE - OffsetIn(a, i) && Done(a, i) + Chunk(a, |val|, i) <= |val|
    ensures var done := Done(a, i); var c := Chunk(a, |val|, i); var p := PageAt(a, i);
            |Stored(view, a, val[..done])[p]| == PGSIZE &&
            Stored(view, a, val[..done])[p := Splice(Stored(view, a, val[..done])[p], OffsetIn(a, i), val[done..done + c])]
            == Stored(view, a, val[..done + c])
  {
    var done, c, p, o0 := Done(a, i), Chunk(a, |val|, i), PageAt(a, i), OffsetIn(a, i);
    var before, after := Stored(view, a, val[..done]), Stored(view, a, val[..done + c]);
    assert after[p] == Splice(before[p], o0, val[done..done + c]) by {
      forall o | 0 <= o < PGSIZE ensures after[p][o] == Splice(before[p], o0, val[done..done + c])[o] {
        ChunkPosition(a, i, p, o);
      }
    }
    forall q | q in view && q != p ensures after[q] == before[q] {
      forall o | 0 <= o < PGSIZE ensures after[q][o] == before[q][o] {
        ChunkPosition(a, i, q, o);
      }
    }
    assert after.Keys == before.Keys;
  }

  // The variables of a copying loop when page i is about to be handled.
  ghost predicate Copying(a: int, val: seq<Octet>, i: int, left: int, o: int, p: int, rest: seq<Octet>) {
    && 0 <= i && left == |val| - Done(a, i) && o == OffsetIn(a, i) && p == PageAt(a, i)
    && 0 <= Copied(a, |val|, i) && rest == val[Copied(a, |val|, i)..]
  }

  lemma CopyTurn(view: map<int, Frame>, a: int, val: seq<Octet>, i: int, left: int, o: int, p: int, rest: seq<Octet>,
          c: int)
    requires Whole(view) && 0 <= a < SPACE && |val| <= MAX_INT && Reaches(view.Keys, a, |val|)
    requires Copying(a, val, i, left, o, p, rest) && left > 0
    requires c == if left > PGSIZE - o then PGSIZE - o else left
    ensures p in view && 0 <= p < PAGES && 0 <= o < PGSIZE && 0 <= c <= |rest| && o + c <= PGSIZE
    ensures Copying(a, val, i + 1, left - (PGSIZE - o), 0, (p + 1) % PAGES, rest[c..])
    ensures var now := Stored(view, a, val[..Copied(a, |val|, i)]);
            |now[p]| == PGSIZE &&
            now[p := Splice(now[p], o, rest[..c])] == Stored(view, a, val[..Copied(a, |val|, i + 1)])
  {
    NextChunk(a, |val|, i);
    assert PageAt(a, i) in view.Keys;
    StoredExtend(view, a, val, i);
    assert rest[..c] == val[Done(a, i)..Done(a, i) + c];
  }

  lemma FetchedExtend(view: map<int, Frame>, a: int, n: nat, i: int)
    requires Whole(view) && 0 <= a < SPACE && n <= MAX_INT
    requires 0 <= i && 0 <= Done(a, i) <= n && PageAt(a, i) in view
    ensures 0 <= Chunk(a, n, i) <= PGSIZE - OffsetIn(a, i) && Done(a, i) + Chunk(a, n, i) <= n
    ensures var c := Chunk(a, n, i);
            Fetched(view, a, Done(a, i) + c) ==
            Fetched(view, a, Done(a, i)) + view[PageAt(a, i)][OffsetIn(a, i)..OffsetIn(a, i) + c]
  {
    var done, c, p, o0 := Done(a, i), Chunk(a, n, i), PageAt(a, i), OffsetIn(a, i);
    var lhs, rhs := Fetched(view, a, done + c), Fetched(view, a, done) + view[p][o0..o0 + c];
    forall j | 0 <= j < done + c ensures lhs[j] == rhs[j] {
      if j >= done {
        ByteOfChunk(view, a, i, j - done);
      }
    }
  }

  lemma ByteOfChunk(view: map<int, Frame>, a: int, i: int, k: int)
    requires Whole(view) && 0 <= a < SPACE && 0 <= i && i * PGSIZE < SPACE - PGSIZE && PageAt(a, i) in view
    requires 0 <= k < PGSIZE - OffsetIn(a, i)
    ensures Byte(view, (a + (Done(a, i) + k)) % SPACE) == view[PageAt(a, i)][OffsetIn(a, i) + k]
  {
    var p, o := PageAt(a, i), OffsetIn(a, i) + k;
    var x := p * PGSIZE + o;
    ChunkPosition(a, i, p, o);
    assert Ahead(a, x) == Done(a, i) + k;
    assert x == (a + (Done(a, i) + k)) % SPACE;
    assert x / PGSIZE == p && x % PGSIZE == o;
  }

  ghost predicate Fetching(a: int, n: nat, i: int, left: int, o: int, p: int) {
    0 <= i && left == n - Done(a, i) && o == OffsetIn(a, i) && p == PageAt(a, i) && 0 <= Copied(a, n, i)
  }

  lemma FetchTurn(view: map<int, Frame>, a: int, n: nat, i: int, left: int, o: int, p: int, c: int)
    requires Whole(view) && 0 <= a < SPACE && n <= MAX_INT && Reaches(view.Keys, a, n)
    requires Fetching(a, n, i, left, o, p) && left > 0
    requires c == if left > PGSIZE - o then PGSIZE - o else left
    ensures p in view && 0 <= p < PAGES && 0 <= o < PGSIZE && 0 <= c && o + c <= PGSIZE
    ensures Fetching(a, n, i + 1, left - (PGSIZE - o), 0, (p + 1) % PAGES)
    ensures Fetched(view, a, Copied(a, n, i + 1)) == Fetched(view, a, Copied(a, n, i)) + view[p][o..o + c]
  {
    NextChunk(a, n, i);
    assert PageAt(a, i) in view.Keys;
    FetchedExtend(view, a, n, i);
  }

  lemma FetchEnds(view: map<int, Frame>, a: int, n: nat)
    requires 0 <= a < SPACE
    ensures Fetching(a, n, 0, n, a % PGSIZE, a / PGSIZE) && Copied(a, n, 0) == 0
    ensures Fetched(view, a, 0) == []
  {
  }

  lemma FetchBounds(a: int, n: nat, i: int, left: int, o: int, p: int)
    requires Fetching(a, n, i, left, o, p)
    ensures 0 <= Copied(a, n, i) <= n
    ensures left <= 0 ==> Copied(a, n, i) == n
  {
  }

  // ---------- allocated ranges ----------

  function PagesFor(bytes: int): int {
    if bytes <= 0 then 0 else (bytes + PGSIZE - 1) / PGSIZE
  }

  // That is the least number of pages with room for the bytes.
  lemma PagesForExact(bytes: int)
    requires bytes >= 0
    ensures 0 <= PagesFor(bytes) && bytes <= PGSIZE * PagesFor(bytes) < bytes + PGSIZE
    ensures forall n: nat :: bytes <= PGSIZE * n <==> PagesFor(bytes) <= n
  {
  }

  // The first page of the range of t_malloc. The NULL for a run that was not found is
  // the address of page 0.
  function StartAsWritten(run: Option<nat>): nat {
    if run.Some? then run.value else 0
  }

  // The page tables that mapping n pages from v on has to make.
  function NewTables(tabs: map<int, int>, v: int, n: nat): set<int> {
    if n == 0 then {}
    else NewTables(tabs, v, n - 1) + if DirOf(v + n - 1) in tabs then {} else {DirOf(v + n - 1)}
  }

  // They are those of the directory entries that some page of the range needs and that
  // have no table yet.
  lemma {:induction false} NewTablesExactly(tabs: map<int, int>, v: int, n: nat, d: int)
    ensures d in NewTables(tabs, v, n) <==> d !in tabs && exists p :: v <= p < v + n && DirOf(p) == d
  {
    if n == 0 {
    } else {
      NewTablesExactly(tabs, v, n - 1, d);
      hide NewTables;
      NewTablesStep(tabs, v, n);
      assert v <= v + n - 1 < v + n;
    }
  }

  lemma NewTablesStep(tabs: map<int, int>, v: int, n: nat)
    requires n > 0
    ensures NewTables(tabs, v, n) ==
            NewTables(tabs, v, n - 1) + if DirOf(v + n - 1) in tabs then {} else {DirOf(v + n - 1)}
  {
  }

  lemma {:induction false} NewTablesGrow(tabs: map<int, int>, v: int, i: nat, n: nat)
    requires i <= n
    ensures |NewTables(tabs, v, i)| <= |NewTables(tabs, v, n)|
    decreases n
  {
    if i < n {
      NewTablesGrow(tabs, v, i, n - 1);
      var d := DirOf(v + n - 1);
      if d in tabs || d in NewTables(tabs, v, n - 1) {
        assert NewTables(tabs, v, n) == NewTables(tabs, v, n - 1);
      }
    }
  }

  // The view after n zeroed pages have been added from v on, and after n pages have gone.
  function Added(view: map<int, Frame>, v: int, n: nat): map<int, Frame> {
    if n == 0 then view else Added(view, v, n - 1)[v + n - 1 := ZeroFrame()]
  }

  function Removed<T>(m: map<int, T>, v: int, n: nat): map<int, T> {
    if n == 0 then m else Removed(m, v, n - 1) - {v + n - 1}
  }

  lemma {:induction false} AddedExactly(view: map<int, Frame>, v: int, n: nat, p: int)
    ensures p in Added(view, v, n) <==> p in view || v <= p < v + n
    ensures v <= p < v + n ==> Added(view, v, n)[p] == ZeroFrame()
    ensures p in view && !(v <= p < v + n) ==> Added(view, v, n)[p] == view[p]
  {
    if n == 0 {
    } else {
      AddedExactly(view, v, n - 1, p);
    }
  }

  lemma {:induction false} RemovedExactly<T>(m: map<int, T>, v: int, n: nat, p: int)
    ensures p in Removed(m, v, n) <==> p in m && !(v <= p < v + n)
    ensures p in Removed(m, v, n) ==> Removed(m, v, n)[p] == m[p]
  {
    if n == 0 {
    } else {
      RemovedExactly(m, v, n - 1, p);
    }
  }

  // ---------- the two-level walk ----------

  // What the bare walk of directory and table finds for page v.
  function Walk(mem: seq<Frame>, v: int): Option<int>
    requires |mem| == FRAMES && forall f :: 0 <= f < FRAMES ==> |mem[f]| == PGSIZE
    requires 0 <= v < PAGES
  {
    var t := Load(mem[0], DirOf(v));
    if t == 0 || t >= FRAMES then None
    else
      var f := Load(mem[t], IndexOf(v));
      if f == 0 then None else Some(f)
  }

  lemma WalkFinds(mem: seq<Frame>, g: Layout, v: int)
    requires Walks(mem, g) && Owned(g) && 0 <= v < PAGES
    ensures Walk(mem, v) == if v in g.pages then Some(g.pages[v]) else None
  {
    assert DirEntryOk(mem, g, DirOf(v)) && TableEntryOk(mem, g, v);
    if v in g.pages { assert g.own[g.pages[v]] == Page(v); }
    if DirOf(v) in g.tabs { assert g.own[g.tabs[DirOf(v)]] == Table(DirOf(v)); }
  }

  // ---------- page accounting ----------

  ghost function KeysBelow(m: map<int, int>, n: int): set<int> {
    set k | 0 <= k < n && k in m
  }

  ghost function ImageBelow(m: map<int, int>, n: int): set<int> {
    set k | 0 <= k < n && k in m :: m[k]
  }

  lemma {:induction false} InjectiveSize(m: map<int, int>, n: nat)
    requires forall a, b :: a in m && b in m && m[a] == m[b] ==> a == b
    ensures |ImageBelow(m, n)| == |KeysBelow(m, n)|
  {
    if n == 0 {
      assert ImageBelow(m, n) == KeysBelow(m, n) == {};
    } else {
      InjectiveSize(m, n - 1);
      KeysStep(m, n - 1);
      ImageStep(m, n - 1);
      hide KeysBelow, ImageBelow;
    }
  }

  lemma KeysStep(m: map<int, int>, k: nat)
    ensures |KeysBelow(m, k + 1)| == |KeysBelow(m, k)| + if k in m then 1 else 0
  {
    if k in m {
      assert KeysBelow(m, k + 1) == KeysBelow(m, k) + {k};
    } else {
      assert KeysBelow(m, k + 1) == KeysBelow(m, k);
    }
  }

  lemma ImageStep(m: map<int, int>, k: nat)
    requires forall a, b :: a in m && b in m && m[a] == m[b] ==> a == b
    ensures |ImageBelow(m, k + 1)| == |ImageBelow(m, k)| + if k in m then 1 else 0
  {
    if k in m {
      assert ImageBelow(m, k + 1) == ImageBelow(m, k) + {m[k]};
      assert m[k] !in ImageBelow(m, k);
    } else {
      assert ImageBelow(m, k + 1) == ImageBelow(m, k);
    }
  }

  ghost function SetBits(bits: seq<bool>): set<int> {
    set i | 0 <= i < |bits| && bits[i]
  }

  lemma {:induction false} SetBitsCount(bits: seq<bool>)
    ensures |SetBits(bits)| + |Frees(bits)| == |bits|
  {
    if bits == [] {
      assert SetBits(bits) == {};
    } else {
      hide SetBits;
      SetBitsCount(bits[..|bits| - 1]);
      SetBitsStep(bits);
    }
  }

  lemma SetBitsStep(bits: seq<bool>)
    requires bits != []
    ensures |SetBits(bits)| == |SetBits(bits[..|bits| - 1])| + if bits[|bits| - 1] then 1 else 0
  {
    var last := |bits| - 1;
    assert SetBits(bits) == SetBits(bits[..last]) + if bits[last] then {last} else {};
  }

  // The set physical bits are one for the directory, one for each page table and one
  // for each mapped page; a virtual bit is set exactly when its entry is not NULL.
  lemma PageAccounting(mem: seq<Frame>, phys: seq<bool>, virt: seq<bool>, g: Layout)
    requires Good(mem, phys, virt, g, {}, {})
    ensures |SetBits(phys)| == 1 + |g.tabs| + |g.pages| == FRAMES - |Frees(phys)|
    ensures forall v :: 0 <= v < PAGES ==> (virt[v] <==> Walk(mem, v).Some?)
  {
    forall v | 0 <= v < PAGES ensures virt[v] <==> Walk(mem, v).Some? {
      WalkFinds(mem, g, v);
    }
    SetBitsCount(phys);
    SetBitsAreOwned(phys, virt, g);
    OwnedCount(g);
  }

  lemma SetBitsAreOwned(phys: seq<bool>, virt: seq<bool>, g: Layout)
    requires Owned(g) && Marked(phys, virt, g, {}, {})
    ensures SetBits(phys) == g.own.Keys
  {
  }

  lemma TableFrames(g: Layout, f: int)
    requires Owned(g)
    ensures f in ImageBelow(g.tabs, DIR_ENTRIES) <==> f in g.own && g.own[f].Table?
  {
  }

  lemma PageFrames(g: Layout, f: int)
    requires Owned(g)
    ensures f in ImageBelow(g.pages, PAGES) <==> f in g.own && g.own[f].Page?
  {
  }

  lemma OwnedCount(g: Layout)
    requires Owned(g)
    ensures |g.own.Keys| == 1 + |g.tabs| + |g.pages|
  {
    FrameCounts(g);
    RolesSplit(g);
    hide Owned, ImageBelow;
    Disjoint3({0}, ImageBelow(g.tabs, DIR_ENTRIES), ImageBelow(g.pages, PAGES));
  }

  lemma Disjoint3(a: set<int>, b: set<int>, c: set<int>)
    requires a !! b && (a + b) !! c
    ensures |a + b + c| == |a| + |b| + |c|
  {
    assert |a + b| == |a| + |b|;
  }

  lemma FrameCounts(g: Layout)
    requires Owned(g)
    ensures |ImageBelow(g.tabs, DIR_ENTRIES)| == |g.tabs|
    ensures |ImageBelow(g.pages, PAGES)| == |g.pages|
  {
    InjectiveSize(g.tabs, DIR_ENTRIES);
    InjectiveSize(g.pages, PAGES);
    assert KeysBelow(g.tabs, DIR_ENTRIES) == g.tabs.Keys;
    assert KeysBelow(g.pages, PAGES) == g.pages.Keys;
    hide ImageBelow, KeysBelow;
  }

  lemma RolesSplit(g: Layout)
    requires Owned(g)
    ensures g.own.Keys == {0} + ImageBelow(g.tabs, DIR_ENTRIES) + ImageBelow(g.pages, PAGES)
    ensures {0} !! ImageBelow(g.tabs, DIR_ENTRIES) &&
      ({0} + ImageBelow(g.tabs, DIR_ENTRIES)) !! ImageBelow(g.pages, PAGES)
  {
    var ts, ps := ImageBelow(g.tabs, DIR_ENTRIES), ImageBelow(g.pages, PAGES);
    forall f ensures f in g.own <==> f == 0 || f in ts || f in ps
      ensures f in ts ==> f != 0 && f !in ps
      ensures f in ps ==> f != 0
    {
      TableFrames(g, f);
      PageFrames(g, f);
      assert f in g.own ==> g.own[f] == Root || g.own[f].Table? || g.own[f].Page?;
    }
  }

  // ---------- freeing as written ----------

  // One call of unset_bit_at_index as its contract in Bitmaps states it.
  function ClearedAsWritten(bits: seq<bool>, i: nat): seq<bool> {
    if i < 8 && i < |bits| then bits[i := false] else bits
  }

  // t_free takes the first frame and clears the bits of it and the following ones.
  function FreedAsWritten(bits: seq<bool>, start: nat, n: nat): (r: seq<bool>)
    ensures |r| == |bits|
    ensures forall i :: 0 <= i < |bits| ==> r[i] == (bits[i] && !(start <= i < start + n && i < 8))
  {
    if n == 0 then bits else ClearedAsWritten(FreedAsWritten(bits, start, n - 1), start + n - 1)
  }

  // What it is meant to do: clear the bit of every frame of the freed pages.
  function Freed(bits: seq<bool>, frames: seq<int>): (r: seq<bool>)
    ensures |r| == |bits|
    ensures forall i :: 0 <= i < |bits| ==> r[i] == (bits[i] && i !in frames)
  {
    seq(|bits|, i requires 0 <= i < |bits| => bits[i] && i !in frames)
  }

  // Both defects of t_free together: the physical bitmap is right exactly when the
  // frames are consecutive, in any order, and all of their bits lie in the first byte.
  lemma FreedAsWrittenCondition(bits: seq<bool>, frames: seq<int>)
    requires |frames| > 0
    requires forall i :: 0 <= i < |frames| ==> 0 <= frames[i] < |bits| && bits[frames[i]]
    requires forall i, j :: 0 <= i < j < |frames| ==> frames[i] != frames[j]
    ensures FreedAsWritten(bits, frames[0], |frames|) == Freed(bits, frames) <==>
              forall i :: 0 <= i < |frames| ==> frames[0] <= frames[i] < frames[0] + |frames| && frames[i] < 8
  {
    var start, n := frames[0], |frames|;
    var a, b := FreedAsWritten(bits, start, n), Freed(bits, frames);
    if a == b {
      forall i | 0 <= i < n ensures start <= frames[i] < start + n && frames[i] < 8 {
        assert !b[frames[i]];
      }
    }
    if forall i :: 0 <= i < n ==> start <= frames[i] < start + n && frames[i] < 8 {
      var used := set i | 0 <= i < n :: frames[i];
      DistinctCount(frames);
      SubsetFills(used, Interval(start, n));
      forall i | 0 <= i < |bits| ensures a[i] == b[i] {
        if start <= i < start + n {
          assert i in used;
        }
      }
    }
  }

  ghost function Interval(start: int, n: nat): (r: set<int>)
    ensures forall i :: i in r <==> start <= i < start + n
    ensures |r| == n
  {
    if n == 0 then {} else Interval(start, n - 1) + {start + n - 1}
  }

  lemma {:induction false} DistinctCount(s: seq<int>)
    requires forall i, j :: 0 <= i < j < |s| ==> s[i] != s[j]
    ensures |set i | 0 <= i < |s| :: s[i]| == |s|
  {
    var all := set i | 0 <= i < |s| :: s[i];
    if s == [] {
      assert all == {};
    } else {
      var last := |s| - 1;
      DistinctCount(s[..last]);
      assert all == (set i | 0 <= i < last :: s[..last][i]) + {s[last]};
    }
  }

  lemma SubsetFills(a: set<int>, b: set<int>)
    requires a <= b && |a| == |b|
    ensures a == b
  {
    assert |b - a| == |b| - |a|;
  }

  // It does happen: two pages in frames 3 and 2, freed with start 3, leave frame 2 marked.
  lemma FreedAsWrittenFails()
    ensures FreedAsWritten([true, true, true, true], 3, 2) != Freed([true, true, true, true], [3, 2])
  {
    var bits := [true, true, true, true];
    assert FreedAsWritten(bits, 3, 2)[2] && !Freed(bits, [3, 2])[2];
  }
}
