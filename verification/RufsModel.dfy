/** The on-disk structures of the file system: inode table, allocation bitmaps, direct
    and single-indirect pointers, one-block directories. This module says what a proper
    disk is and how each elementary change keeps it proper. */
module RufsModel {
  import opened Bitmaps
  import opened Options
  import opened Tree

  const BLOCK_SIZE := 4096
  const MAX_INUM := 1024
  const MAX_DNUM := 16384
  // Inodes take 256 bytes and directory entries 214.
  const INODES_PER_BLOCK := 16
  const INODE_BLOCKS := 64
  const DIRENTS := 19
  const DIRENT_SIZE := 214
  // The superblock, two bitmap blocks and the inode blocks come first.
  const D_START := 67
  const DIRECT := 16
  const INDIRECT := 8
  const CAP := 1024
  const MAX_BLOCKS := 8208

  datatype Inode = Inode(ino: int, valid: int, size: int, kind: int, link: int, direct: seq<int>, indirect: seq<int>)

  datatype Dirent = Dirent(ino: int, valid: bool, name: Name, len: int)

  // What a block holds depends on how it was last written.
  datatype Block = Raw(bytes: seq<bv8>) | Ptrs(ptrs: seq<int>) | Dirents(table: seq<Dirent>)

  // The blocks of an inode in file order, and its indirect blocks.
  datatype Lay = Lay(blocks: seq<int>, inds: seq<int>)

  datatype Role = Data(ino: int, i: int) | Ind(ino: int, k: int)

  // leaked and spare: blocks and inodes that are marked but belong to nothing.
  datatype Layout = Layout(lay: map<int, Lay>, own: map<int, Role>, leaked: set<int>, spare: set<int>)

  // ---------- one inode ----------

  predicate InData(b: int) {
    D_START <= b < D_START + MAX_DNUM
  }

  function At(blks: seq<Block>, b: int): Block
    requires |blks| == MAX_DNUM && InData(b)
  {
    blks[b - D_START]
  }

  function Set(blks: seq<Block>, b: int, x: Block): (r: seq<Block>)
    requires |blks| == MAX_DNUM && InData(b)
    ensures |r| == MAX_DNUM
  {
    blks[b - D_START := x]
  }

  // The pointers of xs from position base on, then -1.
  predicate Slots(slots: seq<int>, xs: seq<int>, base: int, n: int) {
    |slots| == n && forall j :: 0 <= j < n ==> slots[j] == if 0 <= base + j < |xs| then xs[base + j] else -1
  }

  // Indirect blocks needed for n blocks.
  function IndsFor(n: int): int {
    if n <= DIRECT then 0 else (n - DIRECT + CAP - 1) / CAP
  }

  predicate LayOk(l: Lay, isDir: bool) {
    && |l.blocks| <= MAX_BLOCKS && |l.inds| <= INDIRECT
    && IndsFor(|l.blocks|) <= |l.inds| <= IndsFor(|l.blocks| + 1)
    && (isDir ==> |l.blocks| == 1 && l.inds == [])
  }

  predicate InodeOk(inode: Inode, ino: int, isDir: bool, l: Lay) {
    && inode.ino == ino && inode.valid == 1 && (inode.kind == 1 <==> isDir)
    && Slots(inode.direct, l.blocks, 0, DIRECT) && Slots(inode.indirect, l.inds, 0, INDIRECT)
    && (!isDir ==> 0 <= inode.size <= BLOCK_SIZE * |l.blocks|)
  }

  predicate RawAt(blks: seq<Block>, b: int) {
    |blks| == MAX_DNUM && InData(b) && At(blks, b).Raw? && |At(blks, b).bytes| == BLOCK_SIZE
  }

  predicate IndOk(blks: seq<Block>, l: Lay, k: int)
    requires 0 <= k < |l.inds|
  {
    && |blks| == MAX_DNUM && InData(l.inds[k]) && At(blks, l.inds[k]).Ptrs?
    && Slots(At(blks, l.inds[k]).ptrs, l.blocks, DIRECT + CAP * k, CAP)
  }

  predicate PtrsOk(blks: seq<Block>, l: Lay) {
    forall k :: 0 <= k < |l.inds| ==> IndOk(blks, l, k)
  }

  predicate DataOk(blks: seq<Block>, l: Lay) {
    forall i :: 0 <= i < |l.blocks| ==> RawAt(blks, l.blocks[i])
  }

  // ---------- directory tables ----------

  predicate ProperName(n: Name) {
    n != "" && n != "." && n != ".."
  }

  predicate EntryOk(e: Dirent, kids: map<Name, int>) {
    if e.valid then ProperName(e.name) && e.name in kids && kids[e.name] == e.ino else e.name == ""
  }

  ghost predicate Listed(table: seq<Dirent>, n: Name) {
    exists i :: 2 <= i < |table| && table[i].valid && table[i].name == n
  }

  ghost predicate TableOk(table: seq<Dirent>, kids: map<Name, int>) {
    && |table| == DIRENTS
    && table[0].valid && table[0].name == ".." && table[1].valid && table[1].name == "."
    && (forall i :: 2 <= i < DIRENTS ==> EntryOk(table[i], kids))
    && (forall i, j :: 2 <= i < j < DIRENTS && table[i].valid && table[j].valid ==> table[i].name != table[j].name)
    && (forall n :: n in kids ==> Listed(table, n))
  }

  ghost predicate DirOk(blks: seq<Block>, l: Lay, kids: map<Name, int>) {
    && |blks| == MAX_DNUM && |l.blocks| == 1 && InData(l.blocks[0])
    && At(blks, l.blocks[0]).Dirents? && TableOk(At(blks, l.blocks[0]).table, kids)
  }

  // ---------- the whole disk ----------

  function KidsOf(dirs: Dirs, ino: int): Option<map<Name, int>> {
    if ino in dirs then Some(dirs[ino]) else None
  }

  ghost predicate NodeOk(inode: Inode, blks: seq<Block>, ino: int, kids: Option<map<Name, int>>, l: Lay) {
    && InodeOk(inode, ino, kids.Some?, l) && LayOk(l, kids.Some?)
    && PtrsOk(blks, l)
    && (kids.None? ==> DataOk(blks, l))
    && (kids.Some? ==> DirOk(blks, l, kids.value))
  }

  ghost predicate NodesOk(tab: seq<Inode>, blks: seq<Block>, lay: map<int, Lay>, dirs: Dirs) {
    && |tab| == MAX_INUM && |blks| == MAX_DNUM && dirs.Keys <= lay.Keys
    && forall ino :: ino in lay ==> 0 <= ino < MAX_INUM && NodeOk(tab[ino], blks, ino, KidsOf(dirs, ino), lay[ino])
  }

  ghost predicate Owns(own: map<int, Role>, ino: int, l: Lay) {
    && (forall i :: 0 <= i < |l.blocks| ==> l.blocks[i] in own && own[l.blocks[i]] == Data(ino, i))
    && (forall k :: 0 <= k < |l.inds| ==> l.inds[k] in own && own[l.inds[k]] == Ind(ino, k))
  }

  ghost predicate OwnerOk(lay: map<int, Lay>, r: Role, b: int) {
    match r
    case Data(ino, i) => ino in lay && 0 <= i < |lay[ino].blocks| && lay[ino].blocks[i] == b
    case Ind(ino, k) => ino in lay && 0 <= k < |lay[ino].inds| && lay[ino].inds[k] == b
  }

  // Every block that an inode refers to has exactly one place in the whole file system.
  ghost predicate Owned(lay: map<int, Lay>, own: map<int, Role>) {
    && (forall ino :: ino in lay ==> Owns(own, ino, lay[ino]))
    && (forall b :: b in own ==> InData(b) && OwnerOk(lay, own[b], b))
  }

  // Set bits: blocks and inodes in use, and those marked for nothing.
  ghost predicate BlocksMarked(dbits: seq<bool>, own: map<int, Role>, leaked: set<int>) {
    && |dbits| == MAX_DNUM
    && (forall b :: b in leaked ==> InData(b) && b !in own)
    && (forall b :: InData(b) ==> (dbits[b - D_START] <==> b in own || b in leaked))
  }

  ghost predicate InodesMarked(ibits: seq<bool>, lay: map<int, Lay>, spare: set<int>) {
    && |ibits| == MAX_INUM
    && (forall i :: i in spare ==> 0 <= i < MAX_INUM && i !in lay)
    && (forall i :: 0 <= i < MAX_INUM ==> (ibits[i] <==> i in lay || i in spare))
  }

  ghost predicate FreeRaw(blks: seq<Block>, own: map<int, Role>, leaked: set<int>) {
    forall b :: InData(b) && b !in own && b !in leaked ==> RawAt(blks, b)
  }

  ghost predicate Good(tab: seq<Inode>, blks: seq<Block>, ibits: seq<bool>, dbits: seq<bool>, g: Layout, dirs: Dirs) {
    && NodesOk(tab, blks, g.lay, dirs) && Owned(g.lay, g.own)
    && BlocksMarked(dbits, g.own, g.leaked) && InodesMarked(ibits, g.lay, g.spare)
    && FreeRaw(blks, g.own, g.leaked)
  }

  // ---------- contents ----------

  // Byte x of the space that the blocks of an inode span.
  function Byte(blks: seq<Block>, l: Lay, x: int): bv8 {
    if |blks| == MAX_DNUM && 0 <= x < BLOCK_SIZE * |l.blocks| && RawAt(blks, l.blocks[x / BLOCK_SIZE])
    then At(blks, l.blocks[x / BLOCK_SIZE]).bytes[x % BLOCK_SIZE] else 0
  }

  function FileBytes(blks: seq<Block>, l: Lay, size: int): (r: seq<bv8>)
    ensures |r| == if size < 0 then 0 else size
  {
    seq(if size < 0 then 0 else size, x => Byte(blks, l, x))
  }

  // The contents of all files.
  ghost function Files(tab: seq<Inode>, blks: seq<Block>, lay: map<int, Lay>, dirs: Dirs): map<int, seq<bv8>> {
    map ino | ino in lay && ino !in dirs && 0 <= ino < |tab| :: FileBytes(blks, lay[ino], tab[ino].size)
  }

  // ---------- changes to one block ----------

  lemma NodeFrame(inode: Inode, blks: seq<Block>, ino: int, kids: Option<map<Name, int>>, l: Lay, b: int, x: Block)
    requires |blks| == MAX_DNUM && InData(b) && NodeOk(inode, blks, ino, kids, l)
    requires b !in l.blocks && b !in l.inds
    ensures NodeOk(inode, Set(blks, b, x), ino, kids, l)
  {
    var blks' := Set(blks, b, x);
    forall k | 0 <= k < |l.inds| ensures IndOk(blks', l, k) {
      assert IndOk(blks, l, k) && l.inds[k] in l.inds;
    }
    forall i | kids.None? && 0 <= i < |l.blocks| ensures RawAt(blks', l.blocks[i]) {
      assert RawAt(blks, l.blocks[i]) && l.blocks[i] in l.blocks;
    }
    if kids.Some? {
      assert l.blocks[0] in l.blocks;
    }
  }

  lemma BytesFrame(blks: seq<Block>, l: Lay, size: int, b: int, x: Block)
    requires |blks| == MAX_DNUM && InData(b) && b !in l.blocks
    ensures FileBytes(Set(blks, b, x), l, size) == FileBytes(blks, l, size)
  {
    forall y | 0 <= y < size ensures Byte(Set(blks, b, x), l, y) == Byte(blks, l, y) {
      if y < BLOCK_SIZE * |l.blocks| {
        assert l.blocks[y / BLOCK_SIZE] in l.blocks;
      }
    }
  }

  // A block with another owner, or none, is not among those of ino.
  lemma NotAmong(lay: map<int, Lay>, own: map<int, Role>, b: int, ino: int)
    requires Owned(lay, own) && ino in lay && (b in own ==> own[b].ino != ino)
    ensures b !in lay[ino].blocks && b !in lay[ino].inds
  {
    assert Owns(own, ino, lay[ino]);
  }

  ghost predicate OthersKept(tab: seq<Inode>, blks: seq<Block>, tab': seq<Inode>, blks': seq<Block>, lay: map<int,
          Lay>, dirs: Dirs, ino: int) {
    forall o :: o in lay && o != ino ==>
      && 0 <= o < |tab| && o < |tab'|
      && NodeOk(tab'[o], blks', o, KidsOf(dirs, o), lay[o])
      && FileBytes(blks', lay[o], tab'[o].size) == FileBytes(blks, lay[o], tab[o].size)
  }

  // Writing a block of ino, or of nobody, keeps all other inodes.
  lemma BlockOthers(tab: seq<Inode>, blks: seq<Block>, lay: map<int, Lay>, own: map<int, Role>, dirs: Dirs, b: int,
          x: Block, ino: int)
    requires NodesOk(tab, blks, lay, dirs) && Owned(lay, own) && InData(b)
    requires b in own ==> own[b].ino == ino
    ensures OthersKept(tab, blks, tab, Set(blks, b, x), lay, dirs, ino)
  {
    hide NodeOk, Owned, Set, FileBytes;
    forall o | o in lay && o != ino
      ensures 0 <= o < |tab| && NodeOk(tab[o], Set(blks, b, x), o, KidsOf(dirs, o), lay[o])
      ensures FileBytes(Set(blks, b, x), lay[o], tab[o].size) == FileBytes(blks, lay[o], tab[o].size)
    {
      NotAmong(lay, own, b, o);
      NodeFrame(tab[o], blks, o, KidsOf(dirs, o), lay[o], b, x);
      BytesFrame(blks, lay[o], tab[o].size, b, x);
    }
  }

  // Putting the changed inode back among the others.
  lemma Reassemble(tab: seq<Inode>, blks: seq<Block>, lay: map<int, Lay>, dirs: Dirs, inode': Inode,
          blks': seq<Block>, ino: int, l': Lay)
    requires NodesOk(tab, blks, lay, dirs) && 0 <= ino < MAX_INUM && |blks'| == MAX_DNUM
    requires OthersKept(tab, blks, tab, blks', lay, dirs, ino)
    requires NodeOk(inode', blks', ino, KidsOf(dirs, ino), l')
    ensures NodesOk(tab[ino := inode'], blks', lay[ino := l'], dirs)
    ensures ino !in dirs ==>
              Files(tab[ino := inode'], blks', lay[ino := l'], dirs) == Files(tab, blks, lay, dirs)[ino := FileBytes(blks', l', inode'.size)]
    ensures ino in dirs ==> Files(tab[ino := inode'], blks', lay[ino := l'], dirs) == Files(tab, blks, lay, dirs)
  {
    hide NodeOk, FileBytes;
    var a, c := Files(tab[ino := inode'], blks', lay[ino := l'], dirs), Files(tab, blks, lay, dirs);
    assert a.Keys == if ino in dirs then c.Keys else c.Keys + {ino};
  }

  // Nothing is owned by an inode number that is not in use: such a write keeps all.
  lemma BlockUnowned(tab: seq<Inode>, blks: seq<Block>, lay: map<int, Lay>, own: map<int, Role>, dirs: Dirs, b: int,
          x: Block)
    requires NodesOk(tab, blks, lay, dirs) && Owned(lay, own) && InData(b) && b !in own
    ensures NodesOk(tab, Set(blks, b, x), lay, dirs)
    ensures Files(tab, Set(blks, b, x), lay, dirs) == Files(tab, blks, lay, dirs)
  {
    BlockOthers(tab, blks, lay, own, dirs, b, x, -1);
    hide NodeOk, FileBytes, Owned, Set;
    assert Files(tab, Set(blks, b, x), lay, dirs).Keys == Files(tab, blks, lay, dirs).Keys;
  }

  // ---------- single facts of a proper disk ----------

  lemma NodeIn(tab: seq<Inode>, blks: seq<Block>, lay: map<int, Lay>, dirs: Dirs, ino: int)
    requires NodesOk(tab, blks, lay, dirs) && ino in lay
    ensures |tab| == MAX_INUM && |blks| == MAX_DNUM && 0 <= ino < MAX_INUM
    ensures NodeOk(tab[ino], blks, ino, KidsOf(dirs, ino), lay[ino])
  {
    hide NodeOk;
  }

  lemma DirIn(tab: seq<Inode>, blks: seq<Block>, lay: map<int, Lay>, dirs: Dirs, d: int)
    requires NodesOk(tab, blks, lay, dirs)
    ensures d in dirs ==> d in lay
    ensures |blks| == MAX_DNUM && |tab| == MAX_INUM
  {
  }

  lemma LeakedIs(dbits: seq<bool>, own: map<int, Role>, leaked: set<int>, b: int)
    requires BlocksMarked(dbits, own, leaked) && b in leaked
    ensures InData(b) && b !in own
  {
  }

  lemma SpareIs(ibits: seq<bool>, lay: map<int, Lay>, spare: set<int>, ino: int)
    requires InodesMarked(ibits, lay, spare) && ino in spare
    ensures 0 <= ino < MAX_INUM && ino !in lay
  {
  }

  // ---------- allocation ----------

  lemma AllocBlock(tab: seq<Inode>, blks: seq<Block>, ibits: seq<bool>, dbits: seq<bool>, g: Layout, dirs: Dirs, i: int)
    requires Good(tab, blks, ibits, dbits, g, dirs) && 0 <= i < MAX_DNUM && !dbits[i]
    ensures var b := D_START + i;
            && RawAt(blks, b) && b !in g.own && b !in g.leaked
            && Good(tab, blks, ibits, dbits[i := true], g.(leaked := g.leaked + {b}), dirs)
  {
    hide NodesOk, Owned, InodesMarked;
    assert InData(D_START + i);
  }

  lemma AllocInode(tab: seq<Inode>, blks: seq<Block>, ibits: seq<bool>, dbits: seq<bool>, g: Layout, dirs: Dirs, i: int)
    requires Good(tab, blks, ibits, dbits, g, dirs) && 0 <= i < MAX_INUM && !ibits[i]
    ensures i !in g.lay && i !in g.spare
    ensures Good(tab, blks, ibits[i := true], dbits, g.(spare := g.spare + {i}), dirs)
  {
    hide NodesOk, Owned, BlocksMarked, FreeRaw;
  }

  // clear_data_block, on a block that nothing refers to any more.
  lemma FreeBlock(tab: seq<Inode>, blks: seq<Block>, ibits: seq<bool>, dbits: seq<bool>, g: Layout, dirs: Dirs,
          b: int, x: Block)
    requires Good(tab, blks, ibits, dbits, g, dirs) && b in g.leaked && x.Raw? && |x.bytes| == BLOCK_SIZE
    ensures InData(b) && |blks| == MAX_DNUM && |dbits| == MAX_DNUM
    ensures Good(tab, Set(blks, b, x), ibits, dbits[b - D_START := false], g.(leaked := g.leaked - {b}), dirs)
    ensures Files(tab, Set(blks, b, x), g.lay, dirs) == Files(tab, blks, g.lay, dirs)
  {
    BlockUnowned(tab, blks, g.lay, g.own, dirs, b, x);
    hide NodesOk, Owned, InodesMarked, Files;
  }

  lemma FreeInode(tab: seq<Inode>, blks: seq<Block>, ibits: seq<bool>, dbits: seq<bool>, g: Layout, dirs: Dirs,
          i: int, x: Inode)
    requires Good(tab, blks, ibits, dbits, g, dirs) && i in g.spare
    ensures 0 <= i < MAX_INUM && |tab| == MAX_INUM && |ibits| == MAX_INUM
    ensures Good(tab[i := x], blks, ibits[i := false], dbits, g.(spare := g.spare - {i}), dirs)
    ensures Files(tab[i := x], blks, g.lay, dirs) == Files(tab, blks, g.lay, dirs)
  {
    hide NodeOk, Owned, BlocksMarked, FreeRaw, FileBytes;
    assert Files(tab[i := x], blks, g.lay, dirs).Keys == Files(tab, blks, g.lay, dirs).Keys;
  }

  // ---------- a block joins a file ----------

  lemma JoinOwned(lay: map<int, Lay>, own: map<int, Role>, ino: int, b: int, l': Lay, r: Role)
    requires Owned(lay, own) && ino in lay && b !in own && InData(b)
    requires (r == Data(ino, |lay[ino].blocks|) && l' == Lay(lay[ino].blocks + [b], lay[ino].inds))
          || (r == Ind(ino, |lay[ino].inds|) && l' == Lay(lay[ino].blocks, lay[ino].inds + [b]))
    ensures Owned(lay[ino := l'], own[b := r])
  {
    var lay', own' := lay[ino := l'], own[b := r];
    forall o | o in lay' ensures Owns(own', o, lay'[o]) {
      assert Owns(own, o, lay[o]);
    }
    forall c | c in own' ensures InData(c) && OwnerOk(lay', own'[c], c) {
      assert c != b ==> OwnerOk(lay, own[c], c);
    }
  }

  lemma JoinMarked(dbits: seq<bool>, own: map<int, Role>, leaked: set<int>, b: int, r: Role)
    requires BlocksMarked(dbits, own, leaked) && b in leaked
    ensures BlocksMarked(dbits, own[b := r], leaked - {b})
  {
  }

  lemma JoinFree(blks: seq<Block>, blks': seq<Block>, own: map<int, Role>, leaked: set<int>, b: int, r: Role, c: int)
    requires FreeRaw(blks, own, leaked) && |blks| == |blks'| == MAX_DNUM && b in leaked
    requires forall i :: 0 <= i < MAX_DNUM && D_START + i != c ==> blks'[i] == blks[i]
    requires c in own[b := r]
    ensures FreeRaw(blks', own[b := r], leaked - {b})
  {
    forall d | InData(d) && d !in own[b := r] && d !in leaked - {b} ensures RawAt(blks', d) {
      assert RawAt(blks, d);
    }
  }

  lemma RawPrefix(blks: seq<Block>, l: Lay, b: int, size: int)
    requires 0 <= size <= BLOCK_SIZE * |l.blocks|
    ensures forall x :: 0 <= x < BLOCK_SIZE * |l.blocks| ==> Byte(blks, Lay(l.blocks + [b], l.inds), x) == Byte(blks, l, x)
    ensures FileBytes(blks, Lay(l.blocks + [b], l.inds), size) == FileBytes(blks, l, size)
  {
  }

  lemma NodeAppendDirect(inode: Inode, blks: seq<Block>, ino: int, l: Lay, b: int)
    requires NodeOk(inode, blks, ino, None, l) && |l.blocks| < DIRECT && RawAt(blks, b)
    ensures |inode.direct| == DIRECT && 0 <= inode.size <= BLOCK_SIZE * |l.blocks|
    ensures NodeOk(inode.(direct := inode.direct[|l.blocks| := b]), blks, ino, None, Lay(l.blocks + [b], l.inds))
  {
    assert l.inds == [];
  }

  lemma AppendDirect(tab: seq<Inode>, blks: seq<Block>, ibits: seq<bool>, dbits: seq<bool>, g: Layout, dirs: Dirs,
          ino: int, b: int)
    requires Good(tab, blks, ibits, dbits, g, dirs) && ino in g.lay && ino !in dirs
    requires b in g.leaked && RawAt(blks, b) && |g.lay[ino].blocks| < DIRECT
    ensures 0 <= ino < |tab| && |tab[ino].direct| == DIRECT
    ensures var l := g.lay[ino];
            var l' := Lay(l.blocks + [b], l.inds);
            var tab' := tab[ino := tab[ino].(direct := tab[ino].direct[|l.blocks| := b])];
            var g' := Layout(g.lay[ino := l'], g.own[b := Data(ino, |l.blocks|)], g.leaked - {b}, g.spare);
            && Good(tab', blks, ibits, dbits, g', dirs) &&
              Files(tab', blks, g'.lay, dirs) == Files(tab, blks, g.lay, dirs)
            && (forall x :: 0 <= x < BLOCK_SIZE * |l.blocks| ==> Byte(blks, l', x) == Byte(blks, l, x))
  {
    hide NodesOk, Owned, BlocksMarked, InodesMarked, FreeRaw, Files, FileBytes, Byte, RawAt;
    NodeIn(tab, blks, g.lay, dirs, ino);
    LeakedIs(dbits, g.own, g.leaked, b);
    NodeAppendDirect(tab[ino], blks, ino, g.lay[ino], b);
    var l := g.lay[ino];
    var inode := tab[ino];
    var l', inode' := Lay(l.blocks + [b], l.inds), inode.(direct := inode.direct[|l.blocks| := b]);
    SameBlockOthers(tab, blks, g.lay, dirs, ino);
    Reassemble(tab, blks, g.lay, dirs, inode', blks, ino, l');
    JoinOwned(g.lay, g.own, ino, b, l', Data(ino, |l.blocks|));
    JoinMarked(dbits, g.own, g.leaked, b, Data(ino, |l.blocks|));
    JoinFree(blks, blks, g.own, g.leaked, b, Data(ino, |l.blocks|), b);
    RawPrefix(blks, l, b, inode.size);
    SameFile(tab, blks, g.lay, dirs, ino, FileBytes(blks, l', inode'.size));
    InodesSame(ibits, g.lay, g.spare, ino, l');

  }

  lemma SameUpdate(tab: seq<Inode>, i: int)
    requires 0 <= i < |tab|
    ensures tab[i := tab[i]] == tab
  {
  }

  lemma SameLay(lay: map<int, Lay>, ino: int)
    requires ino in lay
    ensures lay[ino := lay[ino]] == lay
  {
  }

  lemma SameBlockOthers(tab: seq<Inode>, blks: seq<Block>, lay: map<int, Lay>, dirs: Dirs, ino: int)
    requires NodesOk(tab, blks, lay, dirs)
    ensures OthersKept(tab, blks, tab, blks, lay, dirs, ino)
  {
  }

  lemma SameFile(tab: seq<Inode>, blks: seq<Block>, lay: map<int, Lay>, dirs: Dirs, ino: int, bytes: seq<bv8>)
    requires ino in lay && ino !in dirs && 0 <= ino < |tab| && bytes == FileBytes(blks, lay[ino], tab[ino].size)
    ensures Files(tab, blks, lay, dirs)[ino := bytes] == Files(tab, blks, lay, dirs)
  {
    hide FileBytes;
  }

  lemma InodesSame(ibits: seq<bool>, lay: map<int, Lay>, spare: set<int>, ino: int, l': Lay)
    requires InodesMarked(ibits, lay, spare) && ino in lay
    ensures InodesMarked(ibits, lay[ino := l'], spare)
  {
  }

  // The indirect block and the place in it that file block n belongs to.
  function IndOf(n: int): int { (n - DIRECT) / CAP }
  function IndexIn(n: int): int { (n - DIRECT) % CAP }

  lemma NodeAppendIndirect(inode: Inode, blks: seq<Block>, ino: int, l: Lay, b: int)
    requires NodeOk(inode, blks, ino, None, l) && DIRECT <= |l.blocks| < MAX_BLOCKS && IndOf(|l.blocks|) < |l.inds|
    requires RawAt(blks, b) && b !in l.inds
    requires forall i, j :: 0 <= i < j < |l.inds| ==> l.inds[i] != l.inds[j]
    requires forall i, k :: 0 <= i < |l.blocks| && 0 <= k < |l.inds| ==> l.blocks[i] != l.inds[k]
    ensures var n := |l.blocks|; var c := l.inds[IndOf(n)];
            && 0 <= IndOf(n) && IndOk(blks, l, IndOf(n)) && 0 <= IndexIn(n) < |At(blks, c).ptrs|
            && NodeOk(inode, Set(blks, c, Ptrs(At(blks, c).ptrs[IndexIn(n) := b])), ino, None, Lay(l.blocks + [b], l.inds))
  {
    var n := |l.blocks|;
    var k0 := IndOf(n);
    assert IndOk(blks, l, k0);
    var c := l.inds[k0];
    var blks', l' := Set(blks, c, Ptrs(At(blks, c).ptrs[IndexIn(n) := b])), Lay(l.blocks + [b], l.inds);
    forall k | 0 <= k < |l.inds| ensures IndOk(blks', l', k) {
      assert IndOk(blks, l, k);
    }
    forall i | 0 <= i < |l'.blocks| ensures RawAt(blks', l'.blocks[i]) {
      assert i < n ==> RawAt(blks, l.blocks[i]);
    }
  }

  lemma OwnDistinct(lay: map<int, Lay>, own: map<int, Role>, ino: int)
    requires Owned(lay, own) && ino in lay
    ensures var l := lay[ino];
            && (forall i, j :: 0 <= i < j < |l.inds| ==> l.inds[i] != l.inds[j])
            && (forall i, j :: 0 <= i < j < |l.blocks| ==> l.blocks[i] != l.blocks[j])
            && (forall i, k :: 0 <= i < |l.blocks| && 0 <= k < |l.inds| ==> l.blocks[i] != l.inds[k])
            && (forall i :: 0 <= i < |l.blocks| ==> InData(l.blocks[i]) && l.blocks[i] in own && own[l.blocks[i]] == Data(ino, i))
            && (forall k :: 0 <= k < |l.inds| ==> InData(l.inds[k]) && l.inds[k] in own && own[l.inds[k]] == Ind(ino, k))
  {
    assert Owns(own, ino, lay[ino]);
  }

  lemma BytesAppendIndirect(blks: seq<Block>, l: Lay, b: int, c: int, x: Block, size: int)
    requires |blks| == MAX_DNUM && InData(c) && c !in l.blocks && 0 <= size <= BLOCK_SIZE * |l.blocks|
    ensures FileBytes(Set(blks, c, x), Lay(l.blocks + [b], l.inds), size) == FileBytes(blks, l, size)
    ensures forall y :: 0 <= y < BLOCK_SIZE * |l.blocks| ==> Byte(Set(blks, c, x), Lay(l.blocks + [b], l.inds), y) == Byte(blks, l, y)
  {
    BytesFrame(blks, l, BLOCK_SIZE * |l.blocks|, c, x);
    var whole, whole' := FileBytes(blks, l, BLOCK_SIZE * |l.blocks|), FileBytes(Set(blks, c, x), l, BLOCK_SIZE * |l.blocks|);
    assert forall y :: 0 <= y < |whole| ==> whole[y] == Byte(blks, l, y) && whole'[y] == Byte(Set(blks, c, x), l, y);
    RawPrefix(Set(blks, c, x), l, b, size);
    hide Set;
  }

  // An entry joins an indirect block.
  lemma AppendIndirect(tab: seq<Inode>, blks: seq<Block>, ibits: seq<bool>, dbits: seq<bool>, g: Layout, dirs: Dirs,
          ino: int, b: int)
    requires Good(tab, blks, ibits, dbits, g, dirs) && ino in g.lay && ino !in dirs
    requires b in g.leaked && RawAt(blks, b)
    requires DIRECT <= |g.lay[ino].blocks| < MAX_BLOCKS && IndOf(|g.lay[ino].blocks|) < |g.lay[ino].inds|
    ensures var l := g.lay[ino]; var n := |l.blocks|; var c := l.inds[IndOf(n)];
            && 0 <= IndOf(n) && IndOk(blks, l, IndOf(n))
            && var blks' := Set(blks, c, Ptrs(At(blks, c).ptrs[IndexIn(n) := b]));
            var l' := Lay(l.blocks + [b], l.inds);
            var g' := Layout(g.lay[ino := l'], g.own[b := Data(ino, n)], g.leaked - {b}, g.spare);
            && Good(tab, blks', ibits, dbits, g', dirs) &&
              Files(tab, blks', g'.lay, dirs) == Files(tab, blks, g.lay, dirs)
            && (forall x :: 0 <= x < BLOCK_SIZE * n ==> Byte(blks', l', x) == Byte(blks, l, x))
  {
    hide NodesOk, Owned, BlocksMarked, InodesMarked, FreeRaw, Files, FileBytes, Byte, RawAt, IndOk;
    NodeIn(tab, blks, g.lay, dirs, ino);
    LeakedIs(dbits, g.own, g.leaked, b);
    var l, inode := g.lay[ino], tab[ino];
    var n := |l.blocks|;
    OwnDistinct(g.lay, g.own, ino);
    NodeAppendIndirect(inode, blks, ino, l, b);
    var c := l.inds[IndOf(n)];
    var x := Ptrs(At(blks, c).ptrs[IndexIn(n) := b]);
    var blks', l' := Set(blks, c, x), Lay(l.blocks + [b], l.inds);
    BlockOthers(tab, blks, g.lay, g.own, dirs, c, x, ino);
    Reassemble(tab, blks, g.lay, dirs, inode, blks', ino, l');
    JoinOwned(g.lay, g.own, ino, b, l', Data(ino, n));
    JoinMarked(dbits, g.own, g.leaked, b, Data(ino, n));
    JoinFree(blks, blks', g.own, g.leaked, b, Data(ino, n), c);
    BytesAppendIndirect(blks, l, b, c, x, inode.size);
    SameFile(tab, blks, g.lay, dirs, ino, FileBytes(blks', l', inode.size));
    InodesSame(ibits, g.lay, g.spare, ino, l');
    SameUpdate(tab, ino);
  }

  function NoPtrs(): (x: Block) {
    Ptrs(seq(CAP, _ => -1))
  }

  lemma NodeAttach(inode: Inode, blks: seq<Block>, ino: int, l: Lay, b: int)
    requires NodeOk(inode, blks, ino, None, l) && DIRECT <= |l.blocks| < MAX_BLOCKS && IndOf(|l.blocks|) == |l.inds|
    requires |blks| == MAX_DNUM && InData(b) && b !in l.blocks && b !in l.inds
    ensures |l.inds| < INDIRECT && |inode.indirect| == INDIRECT && 0 <= inode.size <= BLOCK_SIZE * |l.blocks|
    ensures NodeOk(inode.(indirect := inode.indirect[|l.inds| := b]), Set(blks, b, NoPtrs()), ino, None, Lay(l.blocks, l.inds + [b]))
  {
    NodeFrame(inode, blks, ino, None, l, b, NoPtrs());
    var blks', l' := Set(blks, b, NoPtrs()), Lay(l.blocks, l.inds + [b]);
    forall k | 0 <= k < |l'.inds| ensures IndOk(blks', l', k) {
      assert k < |l.inds| ==> IndOk(blks', l, k);
    }
  }

  // A fresh indirect block joins the inode.
  lemma AttachIndirect(tab: seq<Inode>, blks: seq<Block>, ibits: seq<bool>, dbits: seq<bool>, g: Layout, dirs: Dirs,
          ino: int, b: int)
    requires Good(tab, blks, ibits, dbits, g, dirs) && ino in g.lay && ino !in dirs && b in g.leaked
    requires DIRECT <= |g.lay[ino].blocks| < MAX_BLOCKS && IndOf(|g.lay[ino].blocks|) == |g.lay[ino].inds|
    ensures 0 <= ino < |tab| && |tab[ino].indirect| == INDIRECT && |g.lay[ino].inds| < INDIRECT &&
      |blks| == MAX_DNUM && InData(b)
    ensures var l := g.lay[ino];
            var tab' := tab[ino := tab[ino].(indirect := tab[ino].indirect[|l.inds| := b])];
            var blks', l' := Set(blks, b, NoPtrs()), Lay(l.blocks, l.inds + [b]);
            var g' := Layout(g.lay[ino := l'], g.own[b := Ind(ino, |l.inds|)], g.leaked - {b}, g.spare);
            && Good(tab', blks', ibits, dbits, g', dirs) &&
              Files(tab', blks', g'.lay, dirs) == Files(tab, blks, g.lay, dirs)
            && (forall x :: 0 <= x < BLOCK_SIZE * |l.blocks| ==> Byte(blks', l', x) == Byte(blks, l, x))
  {
    hide NodesOk, Owned, BlocksMarked, InodesMarked, FreeRaw, Files, FileBytes, Byte, RawAt, NoPtrs;
    NodeIn(tab, blks, g.lay, dirs, ino);
    LeakedIs(dbits, g.own, g.leaked, b);
    var l, inode := g.lay[ino], tab[ino];
    NotAmong(g.lay, g.own, b, ino);
    NodeAttach(inode, blks, ino, l, b);
    var r := Ind(ino, |l.inds|);
    var inode' := inode.(indirect := inode.indirect[|l.inds| := b]);
    var blks', l' := Set(blks, b, NoPtrs()), Lay(l.blocks, l.inds + [b]);
    BlockOthers(tab, blks, g.lay, g.own, dirs, b, NoPtrs(), ino);
    Reassemble(tab, blks, g.lay, dirs, inode', blks', ino, l');
    JoinOwned(g.lay, g.own, ino, b, l', r);
    JoinMarked(dbits, g.own, g.leaked, b, r);
    JoinFree(blks, blks', g.own, g.leaked, b, r, b);
    BytesAttach(blks, l, b, NoPtrs(), inode.size);
    SameFile(tab, blks, g.lay, dirs, ino, FileBytes(blks', l', inode.size));
    InodesSame(ibits, g.lay, g.spare, ino, l');

  }

  lemma BytesAttach(blks: seq<Block>, l: Lay, b: int, x: Block, size: int)
    requires |blks| == MAX_DNUM && InData(b) && b !in l.blocks && 0 <= size <= BLOCK_SIZE * |l.blocks|
    ensures FileBytes(Set(blks, b, x), Lay(l.blocks, l.inds + [b]), size) == FileBytes(blks, l, size)
    ensures forall y :: 0 <= y < BLOCK_SIZE * |l.blocks| ==> Byte(Set(blks, b, x), Lay(l.blocks, l.inds + [b]), y) == Byte(blks, l, y)
  {
    BytesFrame(blks, l, BLOCK_SIZE * |l.blocks|, b, x);
    var whole, whole' := FileBytes(blks, l, BLOCK_SIZE * |l.blocks|), FileBytes(Set(blks, b, x), l, BLOCK_SIZE * |l.blocks|);
    assert forall y :: 0 <= y < |whole| ==> whole[y] == Byte(blks, l, y) && whole'[y] == Byte(Set(blks, b, x), l, y);
    hide Set;
  }

  // ---------- writing data and sizes ----------

  lemma NodeWrite(inode: Inode, blks: seq<Block>, ino: int, l: Lay, i: int, bytes: seq<bv8>)
    requires NodeOk(inode, blks, ino, None, l) && 0 <= i < |l.blocks| && |bytes| == BLOCK_SIZE && |blks| == MAX_DNUM
    requires forall k :: 0 <= k < |l.inds| ==> l.blocks[i] != l.inds[k]
    ensures RawAt(blks, l.blocks[i]) && NodeOk(inode, Set(blks, l.blocks[i], Raw(bytes)), ino, None, l)
  {
    assert RawAt(blks, l.blocks[i]);
    var blks' := Set(blks, l.blocks[i], Raw(bytes));
    forall k | 0 <= k < |l.inds| ensures IndOk(blks', l, k) {
      assert IndOk(blks, l, k);
    }
    forall j | 0 <= j < |l.blocks| ensures RawAt(blks', l.blocks[j]) {
      assert RawAt(blks, l.blocks[j]);
    }
  }

  lemma WriteMarked(blks: seq<Block>, own: map<int, Role>, leaked: set<int>, b: int, x: Block)
    requires FreeRaw(blks, own, leaked) && |blks| == MAX_DNUM && InData(b) && (b in own || b in leaked)
    ensures FreeRaw(Set(blks, b, x), own, leaked)
  {
    forall d | InData(d) && d !in own && d !in leaked ensures RawAt(Set(blks, b, x), d) {
      assert RawAt(blks, d);
    }
  }

  lemma WriteBytes(blks: seq<Block>, l: Lay, i: int, bytes: seq<bv8>, x: int)
    requires |blks| == MAX_DNUM && 0 <= i < |l.blocks| && |bytes| == BLOCK_SIZE && RawAt(blks, l.blocks[i])
    requires forall j, k :: 0 <= j < k < |l.blocks| ==> l.blocks[j] != l.blocks[k]
    requires 0 <= x < BLOCK_SIZE * |l.blocks|
    ensures Byte(Set(blks, l.blocks[i], Raw(bytes)), l, x) == if x / BLOCK_SIZE == i then bytes[x % BLOCK_SIZE] else Byte(blks, l, x)
  {
    assert l.blocks[x / BLOCK_SIZE] == l.blocks[i] <==> x / BLOCK_SIZE == i;
  }

  // New contents for block i of a file: its bytes change there and nowhere else.
  lemma WriteData(tab: seq<Inode>, blks: seq<Block>, ibits: seq<bool>, dbits: seq<bool>, g: Layout, dirs: Dirs,
          ino: int, i: int, bytes: seq<bv8>)
    requires Good(tab, blks, ibits, dbits, g, dirs) && ino in g.lay && ino !in dirs
    requires 0 <= i < |g.lay[ino].blocks| && |bytes| == BLOCK_SIZE
    ensures var l := g.lay[ino];
            && 0 <= ino < |tab| && RawAt(blks, l.blocks[i])
            && var blks' := Set(blks, l.blocks[i], Raw(bytes));
            && Good(tab, blks', ibits, dbits, g, dirs)
            && Files(tab, blks', g.lay, dirs) == Files(tab, blks, g.lay, dirs)[ino := FileBytes(blks', l, tab[ino].size)]
            && forall x :: 0 <= x < BLOCK_SIZE * |l.blocks| ==>
                 Byte(blks', l, x) == if x / BLOCK_SIZE == i then bytes[x % BLOCK_SIZE] else Byte(blks, l, x)
  {
    hide NodesOk, Owned, BlocksMarked, InodesMarked, FreeRaw, Files, FileBytes, Byte, RawAt;
    NodeIn(tab, blks, g.lay, dirs, ino);
    var l, inode := g.lay[ino], tab[ino];
    OwnDistinct(g.lay, g.own, ino);
    NodeWrite(inode, blks, ino, l, i, bytes);
    var b := l.blocks[i];
    var blks' := Set(blks, b, Raw(bytes));
    BlockOthers(tab, blks, g.lay, g.own, dirs, b, Raw(bytes), ino);
    Reassemble(tab, blks, g.lay, dirs, inode, blks', ino, l);
    WriteMarked(blks, g.own, g.leaked, b, Raw(bytes));
    forall x | 0 <= x < BLOCK_SIZE * |l.blocks|
      ensures Byte(blks', l, x) == if x / BLOCK_SIZE == i then bytes[x % BLOCK_SIZE] else Byte(blks, l, x)
    {
      WriteBytes(blks, l, i, bytes, x);
    }
    SameUpdate(tab, ino);
    SameLay(g.lay, ino);
  }

  // A new size within the blocks a file has, or any size for a directory.
  lemma SetSize(tab: seq<Inode>, blks: seq<Block>, ibits: seq<bool>, dbits: seq<bool>, g: Layout, dirs: Dirs,
          ino: int, size: int)
    requires Good(tab, blks, ibits, dbits, g, dirs) && ino in g.lay
    requires ino !in dirs ==> 0 <= size <= BLOCK_SIZE * |g.lay[ino].blocks|
    ensures 0 <= ino < |tab|
    ensures var tab' := tab[ino := tab[ino].(size := size)];
            && Good(tab', blks, ibits, dbits, g, dirs)
            && Files(tab', blks, g.lay, dirs) ==
               if ino in dirs then Files(tab, blks, g.lay, dirs)
               else Files(tab, blks, g.lay, dirs)[ino := FileBytes(blks, g.lay[ino], size)]
  {
    hide NodesOk, Owned, BlocksMarked, InodesMarked, FreeRaw, Files, FileBytes;
    NodeIn(tab, blks, g.lay, dirs, ino);
    var l := g.lay[ino];
    SameBlockOthers(tab, blks, g.lay, dirs, ino);
    NodeSize(tab[ino], blks, ino, KidsOf(dirs, ino), l, size);
    Reassemble(tab, blks, g.lay, dirs, tab[ino].(size := size), blks, ino, l);
    SameLay(g.lay, ino);
  }

  lemma NodeSize(inode: Inode, blks: seq<Block>, ino: int, kids: Option<map<Name, int>>, l: Lay, size: int)
    requires NodeOk(inode, blks, ino, kids, l) && (kids.None? ==> 0 <= size <= BLOCK_SIZE * |l.blocks|)
    ensures NodeOk(inode.(size := size), blks, ino, kids, l)
  {
    hide PtrsOk, DataOk, DirOk, LayOk;
  }

  // ---------- blocks lose their owner ----------

  ghost function Elements(s: seq<int>): (r: set<int>)
    ensures forall b :: b in r <==> b in s
  {
    set b | b in s
  }

  ghost function Pieces(l: Lay): set<int> {
    Elements(l.blocks) + Elements(l.inds)
  }

  lemma DisownMarked(blks: seq<Block>, dbits: seq<bool>, own: map<int, Role>, leaked: set<int>, d: set<int>)
    requires BlocksMarked(dbits, own, leaked) && FreeRaw(blks, own, leaked) && d <= own.Keys
    requires forall b :: b in own ==> InData(b)
    ensures BlocksMarked(dbits, own - d, leaked + d) && FreeRaw(blks, own - d, leaked + d)
    ensures forall b :: b in d ==> b !in leaked
  {
    assert forall b :: b in d ==> b in own.Keys;
  }

  lemma ReleaseOwned(lay: map<int, Lay>, own: map<int, Role>, ino: int)
    requires Owned(lay, own) && ino in lay
    ensures Pieces(lay[ino]) <= own.Keys && Owned(lay - {ino}, own - Pieces(lay[ino]))
  {
    var d := Pieces(lay[ino]);
    OwnDistinct(lay, own, ino);
    forall o | o in lay - {ino} ensures Owns(own - d, o, lay[o]) {
      assert Owns(own, o, lay[o]);
    }
    forall b | b in own - d ensures OwnerOk(lay - {ino}, own[b], b) {
      assert OwnerOk(lay, own[b], b);
    }
  }

  // An inode is taken out of use with all its blocks still marked. This is the state
  // in which unlink and rmdir clear its blocks.
  lemma Release(tab: seq<Inode>, blks: seq<Block>, ibits: seq<bool>, dbits: seq<bool>, g: Layout, dirs: Dirs, ino: int)
    requires Good(tab, blks, ibits, dbits, g, dirs) && ino in g.lay
    ensures var d := Pieces(g.lay[ino]);
            var g' := Layout(g.lay - {ino}, g.own - d, g.leaked + d, g.spare + {ino});
            && d <= g.own.Keys && (forall b :: b in d ==> b !in g.leaked) && ino !in g.spare
            && Good(tab, blks, ibits, dbits, g', dirs - {ino})
            && Files(tab, blks, g'.lay, dirs - {ino}) == Files(tab, blks, g.lay, dirs) - {ino}
  {
    ReleaseOwned(g.lay, g.own, ino);
    DisownMarked(blks, dbits, g.own, g.leaked, Pieces(g.lay[ino]));
    ReleaseNodes(tab, blks, g.lay, dirs, ino);
    ReleaseInode(ibits, g.lay, g.spare, ino);
    hide NodesOk, Owned, InodesMarked, BlocksMarked, FreeRaw, Files, Pieces;
  }

  lemma ReleaseNodes(tab: seq<Inode>, blks: seq<Block>, lay: map<int, Lay>, dirs: Dirs, ino: int)
    requires NodesOk(tab, blks, lay, dirs) && ino in lay
    ensures NodesOk(tab, blks, lay - {ino}, dirs - {ino})
    ensures Files(tab, blks, lay - {ino}, dirs - {ino}) == Files(tab, blks, lay, dirs) - {ino}
  {
    hide NodeOk, FileBytes;
    assert forall o :: o != ino ==> KidsOf(dirs - {ino}, o) == KidsOf(dirs, o);
    assert Files(tab, blks, lay - {ino}, dirs - {ino}).Keys == (Files(tab, blks, lay, dirs) - {ino}).Keys;
  }

  lemma ReleaseInode(ibits: seq<bool>, lay: map<int, Lay>, spare: set<int>, ino: int)
    requires InodesMarked(ibits, lay, spare) && ino in lay && 0 <= ino < MAX_INUM
    ensures ino !in spare && InodesMarked(ibits, lay - {ino}, spare + {ino})
  {
  }

  // How many of the n blocks of a file a disk inode shows that was not written back: all direct blocks it
  // had, and the entries of the indirect blocks it had.
  function Shown(l0: Lay, n: int): int {
    if |l0.blocks| < DIRECT then |l0.blocks|
    else if n <= DIRECT + CAP * |l0.inds| then n
    else DIRECT + CAP * |l0.inds|
  }

  ghost predicate Extends(l0: Lay, l: Lay) {
    && |l0.blocks| <= |l.blocks| && l.blocks[..|l0.blocks|] == l0.blocks
    && |l0.inds| <= |l.inds| && l.inds[..|l0.inds|] == l0.inds
  }

  function Cut(l0: Lay, l: Lay): (r: Lay)
    requires 0 <= Shown(l0, |l.blocks|) <= |l.blocks|
  {
    Lay(l.blocks[..Shown(l0, |l.blocks|)], l0.inds)
  }

  lemma NodeUnflush(inode0: Inode, inode: Inode, blks: seq<Block>, ino: int, l0: Lay, l: Lay)
    requires NodeOk(inode, blks, ino, None, l) && InodeOk(inode0, ino, false, l0) && LayOk(l0, false) && Extends(l0, l)
    ensures |l0.blocks| <= Shown(l0, |l.blocks|) <= |l.blocks|
    ensures NodeOk(inode0, blks, ino, None, Cut(l0, l))
  {
    var l' := Cut(l0, l);
    forall k | 0 <= k < |l'.inds| ensures IndOk(blks, l', k) {
      assert IndOk(blks, l, k);
      assert l'.inds[k] == l.inds[k];
    }
    forall i | 0 <= i < |l'.blocks| ensures RawAt(blks, l'.blocks[i]) {
      assert RawAt(blks, l.blocks[i]);
    }
  }

  lemma CutOwned(lay: map<int, Lay>, own: map<int, Role>, ino: int, n: int, m: int)
    requires Owned(lay, own) && ino in lay && 0 <= n <= |lay[ino].blocks| && 0 <= m <= |lay[ino].inds|
    ensures var l := lay[ino];
            var d := Elements(l.blocks[n..]) + Elements(l.inds[m..]);
            d <= own.Keys && Owned(lay[ino := Lay(l.blocks[..n], l.inds[..m])], own - d)
    ensures forall b :: b in own ==> InData(b)
  {
    var l := lay[ino];
    var d := Elements(l.blocks[n..]) + Elements(l.inds[m..]);
    var l' := Lay(l.blocks[..n], l.inds[..m]);
    OwnDistinct(lay, own, ino);
    forall o | o in lay ensures Owns(own - d, o, lay[ino := l'][o]) {
      assert Owns(own, o, lay[o]);
    }
    forall b | b in own - d ensures OwnerOk(lay[ino := l'], own[b], b) {
      assert OwnerOk(lay, own[b], b);
    }
  }

  lemma CutBytes(blks: seq<Block>, l: Lay, n: int, inds: seq<int>, size: int)
    requires 0 <= n <= |l.blocks| && 0 <= size <= BLOCK_SIZE * n
    ensures FileBytes(blks, Lay(l.blocks[..n], inds), size) == FileBytes(blks, l, size)
  {
  }

  // A write gives up: the inode on disk is still the old one. The blocks it does not
  // show stay marked for nothing; the file keeps its size.
  lemma Unflush(tab: seq<Inode>, blks: seq<Block>, ibits: seq<bool>, dbits: seq<bool>, g: Layout, dirs: Dirs,
          ino: int, inode: Inode, l0: Lay)
    requires 0 <= ino < |tab| && Good(tab[ino := inode], blks, ibits, dbits, g, dirs) && ino in g.lay && ino !in dirs
    requires InodeOk(tab[ino], ino, false, l0) && LayOk(l0, false) && Extends(l0, g.lay[ino])
    ensures |l0.blocks| <= Shown(l0, |g.lay[ino].blocks|) <= |g.lay[ino].blocks|
    ensures var l := g.lay[ino]; var n := Shown(l0, |l.blocks|);
            var d := Elements(l.blocks[n..]) + Elements(l.inds[|l0.inds|..]);
            var g' := Layout(g.lay[ino := Cut(l0, l)], g.own - d, g.leaked + d, g.spare);
            && Good(tab, blks, ibits, dbits, g', dirs)
            && Files(tab, blks, g'.lay, dirs) == Files(tab[ino := inode], blks, g.lay, dirs)[ino := FileBytes(blks, l, tab[ino].size)]
  {
    hide NodesOk, Owned, BlocksMarked, InodesMarked, FreeRaw, Files, FileBytes;
    NodeIn(tab[ino := inode], blks, g.lay, dirs, ino);
    var l, tab1 := g.lay[ino], tab[ino := inode];
    NodeUnflush(tab[ino], inode, blks, ino, l0, l);
    var n := Shown(l0, |l.blocks|);
    var d := Elements(l.blocks[n..]) + Elements(l.inds[|l0.inds|..]);
    SameBlockOthers(tab1, blks, g.lay, dirs, ino);
    Reassemble(tab1, blks, g.lay, dirs, tab[ino], blks, ino, Cut(l0, l));
    CutOwned(g.lay, g.own, ino, n, |l0.inds|);
    DisownMarked(blks, dbits, g.own, g.leaked, d);
    CutBytes(blks, l, n, l0.inds, tab[ino].size);
    InodesSame(ibits, g.lay, g.spare, ino, Cut(l0, l));
    assert tab1[ino := tab[ino]] == tab;
  }

  // ---------- new inodes ----------

  function FreshInode(ino: int, isDir: bool, direct: seq<int>): Inode {
    Inode(ino, 1, 0, if isDir then 1 else 0, if isDir then 2 else 1, direct, seq(INDIRECT, _ => -1))
  }

  function NoDirect(): seq<int> {
    seq(DIRECT, _ => -1)
  }

  lemma FreshOthers(tab: seq<Inode>, blks: seq<Block>, blks': seq<Block>, lay: map<int, Lay>, dirs: Dirs, dirs': Dirs,
          ino: int, inode: Inode, l: Lay)
    requires NodesOk(tab, blks, lay, dirs) && OthersKept(tab, blks, tab, blks', lay, dirs, ino) && |blks'| == MAX_DNUM
    requires ino !in lay && 0 <= ino < MAX_INUM && NodeOk(inode, blks', ino, KidsOf(dirs', ino), l)
    requires dirs' - {ino} == dirs
    ensures NodesOk(tab[ino := inode], blks', lay[ino := l], dirs')
    ensures Files(tab[ino := inode], blks', lay[ino := l], dirs') ==
            if ino in dirs' then Files(tab, blks, lay, dirs) else Files(tab, blks, lay, dirs)[ino := FileBytes(blks', l, inode.size)]
  {
    hide NodeOk, FileBytes;
    assert forall o :: o != ino ==> KidsOf(dirs', o) == KidsOf(dirs, o);
    var a, c := Files(tab[ino := inode], blks', lay[ino := l], dirs'), Files(tab, blks, lay, dirs);
    assert a.Keys == if ino in dirs' then c.Keys else c.Keys + {ino};
  }

  lemma FreshOwned(lay: map<int, Lay>, own: map<int, Role>, ino: int)
    requires Owned(lay, own) && ino !in lay
    ensures Owned(lay[ino := Lay([], [])], own)
    ensures forall b :: InData(b) && b !in own ==> Owned(lay[ino := Lay([b], [])], own[b := Data(ino, 0)])
  {
    var lay0 := lay[ino := Lay([], [])];
    forall b | b in own ensures OwnerOk(lay0, own[b], b) {
      assert OwnerOk(lay, own[b], b);
    }
    forall o | o in lay0 ensures Owns(own, o, lay0[o]) {
      assert o in lay ==> Owns(own, o, lay[o]);
    }
    forall b | InData(b) && b !in own ensures Owned(lay[ino := Lay([b], [])], own[b := Data(ino, 0)]) {
      JoinOwned(lay0, own, ino, b, Lay([b], []), Data(ino, 0));
      assert lay0[ino := Lay([b], [])] == lay[ino := Lay([b], [])];
    }
  }

  lemma FreshMarked(ibits: seq<bool>, lay: map<int, Lay>, spare: set<int>, ino: int, l: Lay)
    requires InodesMarked(ibits, lay, spare) && ino in spare
    ensures InodesMarked(ibits, lay[ino := l], spare - {ino})
  {
  }

  // init_inode and writei for a file.
  lemma NewFile(tab: seq<Inode>, blks: seq<Block>, ibits: seq<bool>, dbits: seq<bool>, g: Layout, dirs: Dirs, ino: int)
    requires Good(tab, blks, ibits, dbits, g, dirs) && ino in g.spare
    ensures 0 <= ino < |tab| && ino !in g.lay
    ensures var tab' := tab[ino := FreshInode(ino, false, NoDirect())];
            var g' := Layout(g.lay[ino := Lay([], [])], g.own, g.leaked, g.spare - {ino});
            && Good(tab', blks, ibits, dbits, g', dirs)
            && Files(tab', blks, g'.lay, dirs) == Files(tab, blks, g.lay, dirs)[ino := []]
  {
    hide NodesOk, Owned, InodesMarked, BlocksMarked, FreeRaw, Files;
    SpareIs(ibits, g.lay, g.spare, ino);
    DirIn(tab, blks, g.lay, dirs, ino);
    assert ino !in g.lay && ino !in dirs;
    SameBlockOthers(tab, blks, g.lay, dirs, ino);
    NodeFresh(blks, ino);
    FreshOthers(tab, blks, blks, g.lay, dirs, dirs, ino, FreshInode(ino, false, NoDirect()), Lay([], []));
    FreshOwned(g.lay, g.own, ino);
    FreshMarked(ibits, g.lay, g.spare, ino, Lay([], []));

  }

  lemma NodeFresh(blks: seq<Block>, ino: int)
    ensures NodeOk(FreshInode(ino, false, NoDirect()), blks, ino, None, Lay([], []))
    ensures FileBytes(blks, Lay([], []), 0) == []
  {
  }

  // init_dirent_table.
  function FreshTable(ino: int, parent: int): seq<Dirent> {
    [Dirent(parent, true, "..", 2), Dirent(ino, true, ".", 1)] + seq(DIRENTS - 2, _ => Dirent(0, false, "", 0))
  }

  lemma NodeFreshDir(blks: seq<Block>, ino: int, parent: int, b: int)
    requires |blks| == MAX_DNUM && InData(b)
    ensures NodeOk(FreshInode(ino, true, NoDirect()[0 := b]), Set(blks, b, Dirents(FreshTable(ino, parent))), ino, Some(map[]), Lay([b], []))
  {
    var t := FreshTable(ino, parent);
    assert forall i :: 2 <= i < DIRENTS ==> t[i] == Dirent(0, false, "", 0);
    assert TableOk(t, map[]);
  }

  lemma NewDir(tab: seq<Inode>, blks: seq<Block>, ibits: seq<bool>, dbits: seq<bool>, g: Layout, dirs: Dirs, ino: int,
          parent: int, b: int)
    requires Good(tab, blks, ibits, dbits, g, dirs) && ino in g.spare && b in g.leaked
    ensures 0 <= ino < |tab| && ino !in g.lay && |blks| == MAX_DNUM && InData(b)
    ensures var tab' := tab[ino := FreshInode(ino, true, NoDirect()[0 := b])];
            var blks' := Set(blks, b, Dirents(FreshTable(ino, parent)));
            var g' := Layout(g.lay[ino := Lay([b], [])], g.own[b := Data(ino, 0)], g.leaked - {b}, g.spare - {ino});
            && Good(tab', blks', ibits, dbits, g', dirs[ino := map[]])
            && Files(tab', blks', g'.lay, dirs[ino := map[]]) == Files(tab, blks, g.lay, dirs)
  {
    hide NodesOk, Owned, InodesMarked, BlocksMarked, FreeRaw, Files, FreshTable;
    SpareIs(ibits, g.lay, g.spare, ino);
    DirIn(tab, blks, g.lay, dirs, ino);
    LeakedIs(dbits, g.own, g.leaked, b);
    assert ino !in g.lay && ino !in dirs;
    var x, l := Dirents(FreshTable(ino, parent)), Lay([b], []);
    var blks', dirs' := Set(blks, b, x), dirs[ino := map[]];
    BlockOthers(tab, blks, g.lay, g.own, dirs, b, x, ino);
    NodeFreshDir(blks, ino, parent, b);
    assert dirs' - {ino} == dirs;
    FreshOthers(tab, blks, blks', g.lay, dirs, dirs', ino, FreshInode(ino, true, NoDirect()[0 := b]), l);
    FreshOwned(g.lay, g.own, ino);
    FreshMarked(ibits, g.lay, g.spare, ino, l);
    JoinMarked(dbits, g.own, g.leaked, b, Data(ino, 0));
    JoinFree(blks, blks', g.own, g.leaked, b, Data(ino, 0), b);

  }

  // ---------- a directory's table changes ----------

  lemma NodeTable(inode: Inode, blks: seq<Block>, ino: int, kids: map<Name, int>, l: Lay, t: seq<Dirent>,
          kids': map<Name, int>)
    requires NodeOk(inode, blks, ino, Some(kids), l) && TableOk(t, kids')
    ensures |blks| == MAX_DNUM && |l.blocks| == 1 && InData(l.blocks[0])
    ensures NodeOk(inode, Set(blks, l.blocks[0], Dirents(t)), ino, Some(kids'), l)
  {
    hide TableOk;
  }

  lemma SetTable(tab: seq<Inode>, blks: seq<Block>, ibits: seq<bool>, dbits: seq<bool>, g: Layout, dirs: Dirs, d: int,
          t: seq<Dirent>, kids': map<Name, int>)
    requires Good(tab, blks, ibits, dbits, g, dirs) && d in dirs && TableOk(t, kids')
    ensures d in g.lay && |blks| == MAX_DNUM && |g.lay[d].blocks| == 1 && InData(g.lay[d].blocks[0])
    ensures var blks' := Set(blks, g.lay[d].blocks[0], Dirents(t));
            && Good(tab, blks', ibits, dbits, g, dirs[d := kids'])
            && Files(tab, blks', g.lay, dirs[d := kids']) == Files(tab, blks, g.lay, dirs)
  {
    hide NodesOk, Owned, InodesMarked, BlocksMarked, FreeRaw, Files;
    DirIn(tab, blks, g.lay, dirs, d);
    NodeIn(tab, blks, g.lay, dirs, d);
    var l := g.lay[d];
    assert KidsOf(dirs, d) == Some(dirs[d]);
    NodeTable(tab[d], blks, d, dirs[d], l, t, kids');
    var b := l.blocks[0];
    var blks' := Set(blks, b, Dirents(t));
    OwnDistinct(g.lay, g.own, d);
    BlockOthers(tab, blks, g.lay, g.own, dirs, b, Dirents(t), d);
    WriteMarked(blks, g.own, g.leaked, b, Dirents(t));
    TableNodes(tab, blks, blks', g.lay, dirs, d, kids');

  }

  lemma TableNodes(tab: seq<Inode>, blks: seq<Block>, blks': seq<Block>, lay: map<int, Lay>, dirs: Dirs, d: int,
          kids': map<Name, int>)
    requires NodesOk(tab, blks, lay, dirs) && d in dirs && |blks'| == MAX_DNUM
    requires OthersKept(tab, blks, tab, blks', lay, dirs, d) && NodeOk(tab[d], blks', d, Some(kids'), lay[d])
    ensures NodesOk(tab, blks', lay, dirs[d := kids'])
    ensures Files(tab, blks', lay, dirs[d := kids']) == Files(tab, blks, lay, dirs)
  {
    hide NodeOk, FileBytes;
    var dirs' := dirs[d := kids'];
    assert forall o :: o != d ==> KidsOf(dirs', o) == KidsOf(dirs, o);
    assert Files(tab, blks', lay, dirs').Keys == Files(tab, blks, lay, dirs).Keys;
  }
}
