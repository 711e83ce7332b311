/** The file system calls, on an in-memory disk. The inode blocks, the data blocks and
    the two bitmap blocks are separate arrays; block numbers are those of the disk. */
module Rufs {
  import opened Bitmaps
  import opened Options
  import opened Tree
  import M = RufsModel

  // Slots of a directory beside "." and "..".
  const SLOTS := 17

  datatype Status = Ok | NoEntry | Exists | NoSpace | NotEmpty

  // Count is the number of bytes reported as written; Full is -ENOSPC.
  datatype WriteResult = Missing | Count(n: int) | Full

  function Table(bs: seq<seq<M.Inode>>): (r: seq<M.Inode>)
    requires |bs| == M.INODE_BLOCKS && forall i :: 0 <= i < |bs| ==> |bs[i]| == M.INODES_PER_BLOCK
    ensures |r| == M.MAX_INUM
  {
    seq(M.MAX_INUM, i requires 0 <= i < M.MAX_INUM => bs[i / M.INODES_PER_BLOCK][i % M.INODES_PER_BLOCK])
  }

  // The whole file system as a value.
  datatype Disk = Disk(tab: seq<M.Inode>, blocks: seq<M.Block>, ibits: seq<bool>, dbits: seq<bool>, g: M.Layout,
                       dirs: Dirs)
  {
    ghost predicate Good() {
      M.Good(tab, blocks, ibits, dbits, g, dirs)
    }
  }

  class FileSystem {
    const inodes: array<seq<M.Inode>>
    const blocks: array<M.Block>
    const ibits: array<bv8>
    const dbits: array<bv8>
    ghost var g: M.Layout
    ghost var dirs: Dirs

    ghost predicate Shape()
      reads this, inodes
    {
      && inodes.Length == M.INODE_BLOCKS && (forall i :: 0 <= i < inodes.Length ==> |inodes[i]| == M.INODES_PER_BLOCK)
      && blocks.Length == M.MAX_DNUM && ibits.Length == M.MAX_INUM / 8 && dbits.Length == M.MAX_DNUM / 8
    }

    ghost function Tab(): (r: seq<M.Inode>)
      reads this, inodes
      requires Shape()
      ensures |r| == M.MAX_INUM
    {
      Table(inodes[..])
    }

    // The disk is proper when the inode table is read as tab. While a write is under
    // way, tab holds the inode in memory in place of the one on disk.
    ghost predicate Holds(tab: seq<M.Inode>)
      reads this, inodes, blocks, ibits, dbits
    {
      Shape() && M.Good(tab, blocks[..], Bits(Lsb, ibits[..]), Bits(Lsb, dbits[..]), g, dirs)
    }

    ghost predicate Sound()
      reads this, inodes, blocks, ibits, dbits
    {
      Shape() && Holds(Tab())
    }

    ghost predicate Valid()
      reads this, inodes, blocks, ibits, dbits
    {
      Sound() && TreeOk(dirs, g.lay.Keys - dirs.Keys)
    }

    // The contents of all files.
    ghost function Files(): map<int, seq<bv8>>
      reads this, inodes, blocks
      requires Shape()
    {
      M.Files(Tab(), blocks[..], g.lay, dirs)
    }

    ghost function FilesIn(tab: seq<M.Inode>): map<int, seq<bv8>>
      reads this, blocks
    {
      M.Files(tab, blocks[..], g.lay, dirs)
    }

    // ---------- inodes ----------

    method ReadI(ino: int) returns (inode: M.Inode)
      requires Shape() && 0 <= ino < M.MAX_INUM
      ensures inode == Tab()[ino]
    {
      inode := inodes[ino / M.INODES_PER_BLOCK][ino % M.INODES_PER_BLOCK];
    }

    method WriteI(ino: int, inode: M.Inode)
      requires Shape() && 0 <= ino < M.MAX_INUM
      modifies inodes
      ensures Shape() && Tab() == old(Tab())[ino := inode]
    {
      ghost var before := inodes[..];
      var b, o := ino / M.INODES_PER_BLOCK, ino % M.INODES_PER_BLOCK;
      inodes[b] := inodes[b][o := inode];
      assert inodes[..] == before[b := before[b][o := inode]];
      TableUpdate(before, ino, inode);
    }

    // ---------- allocation ----------

    method GetAvailIno() returns (r: Option<nat>)
      requires Sound()
      modifies `g, ibits
      ensures Sound()
      ensures r == if old(NoFree(Bits(Lsb, ibits[..]))) then None else Some(FirstClear(old(Bits(Lsb, ibits[..]))))
      ensures r.None? ==> g == old(g) && Bits(Lsb, ibits[..]) == old(Bits(Lsb, ibits[..]))
      ensures r.Some? ==> r.value < M.MAX_INUM && r.value !in old(g.lay) && r.value !in old(g.spare)
      ensures r.Some? ==> g == old(g).(spare := old(g.spare) + {r.value})
      ensures r.Some? ==> Bits(Lsb, ibits[..]) == old(Bits(Lsb, ibits[..]))[r.value := true]
      ensures Files() == old(Files())
    {
      hide M.Good, Bits, M.Files;
      ghost var bits, dmarks := Bits(Lsb, ibits[..]), dbits[..];
      NoFreeMeans(ibits[..], dbits[..]);
      r := TakeFirst(Lsb, ibits, M.MAX_INUM);
      assert dbits[..] == dmarks;
      if r.Some? {
        M.AllocInode(Tab(), blocks[..], bits, Bits(Lsb, dbits[..]), g, dirs, r.value);
        g := g.(spare := g.spare + {r.value});
      }
    }

    // The block is marked but not yet part of anything.
    method GetAvailBlkno(ghost tab: seq<M.Inode>) returns (b: int)
      requires Holds(tab)
      modifies `g, dbits
      ensures Holds(tab)
      ensures b == -1 <==> old(NoFree(Bits(Lsb, dbits[..])))
      ensures b == -1 ==> g == old(g) && Bits(Lsb, dbits[..]) == old(Bits(Lsb, dbits[..]))
      ensures b != -1 ==> b == M.D_START + FirstClear(old(Bits(Lsb, dbits[..]))) && M.InData(b)
      ensures b != -1 ==> Bits(Lsb, dbits[..]) == old(Bits(Lsb, dbits[..]))[b - M.D_START := true]
      ensures b != -1 ==> M.RawAt(blocks[..], b) && b !in g.own && b !in old(g.leaked)
      ensures b != -1 ==> g == old(g).(leaked := old(g.leaked) + {b})
    {
      hide M.Good, Bits;
      ghost var bits, imarks := Bits(Lsb, dbits[..]), ibits[..];
      NoFreeMeans(ibits[..], dbits[..]);
      var r := TakeFirst(Lsb, dbits, M.MAX_DNUM);
      assert ibits[..] == imarks;
      if r.None? {
        return -1;
      }
      b := M.D_START + r.value;
      M.AllocBlock(tab, blocks[..], Bits(Lsb, ibits[..]), bits, g, dirs, r.value);
      g := g.(leaked := g.leaked + {b});
    }

    method ClearDataBlock(b: int)
      requires Sound() && b in g.leaked
      modifies `g, blocks, dbits
      ensures Sound() && g == old(g).(leaked := old(g.leaked) - {b}) && Files() == old(Files())
      ensures forall i :: 0 <= i < M.MAX_DNUM && M.D_START + i != b ==> blocks[i] == old(blocks[i])
    {
      hide M.Good, Bits, M.Files;
      ghost var bs, bits, imarks := blocks[..], Bits(Lsb, dbits[..]), ibits[..];
      var zero := BlankBlock();
      M.FreeBlock(Tab(), bs, Bits(Lsb, ibits[..]), bits, g, dirs, b, zero);
      blocks[b - M.D_START] := zero;
      Clear(Lsb, dbits, b - M.D_START);
      assert blocks[..] == M.Set(bs, b, zero) && ibits[..] == imarks;
      g := g.(leaked := g.leaked - {b});
    }

    method ClearInode(ino: int)
      requires Sound() && ino in g.spare
      modifies `g, inodes, ibits
      ensures Sound() && g == old(g).(spare := old(g.spare) - {ino}) && Files() == old(Files())
    {
      hide M.Good, Bits, M.Files;
      ghost var bits, dmarks := Bits(Lsb, ibits[..]), dbits[..];
      var x := M.Inode(0, 0, 0, 0, 0, seq(M.DIRECT, _ => -1), seq(M.INDIRECT, _ => -1));
      M.FreeInode(Tab(), blocks[..], bits, Bits(Lsb, dbits[..]), g, dirs, ino, x);
      WriteI(ino, x);
      Clear(Lsb, ibits, ino);
      assert dbits[..] == dmarks;
      g := g.(spare := g.spare - {ino});
    }

    // ---------- directories ----------

    // dir_find. Names "." and ".." are in every table; a removed entry has no name.
    method DirFind(ino: int, name: Name) returns (r: Option<M.Dirent>)
      requires Sound() && ino in dirs && M.ProperName(name)
      ensures r.Some? <==> name in dirs[ino]
      ensures r.Some? ==> r.value.ino == dirs[ino][name]
    {
      hide Bits;
      DirFacts(Tab(), blocks[..], Bits(Lsb, ibits[..]), Bits(Lsb, dbits[..]), g, dirs, ino);
      hide M.Good;
      var inode := ReadI(ino);
      var b := inode.direct[0];
      var table := blocks[b - M.D_START].table;
      var i := 0;
      while i < M.DIRENTS
        invariant 0 <= i <= M.DIRENTS
        invariant forall k :: 2 <= k < i ==> table[k].name != name
      {
        if table[i].name == name {
          assert i >= 2 && M.EntryOk(table[i], dirs[ino]);
          return Some(table[i]);
        }
        i := i + 1;
      }
      NotListed(table, dirs[ino], name);
      return None;
    }

    // get_node_by_path, on the components of the path.
    method GetNodeByPath(path: Path) returns (r: Option<M.Inode>)
      requires Sound() && ROOT in dirs && ProperPath(path)
      requires Walkable(dirs, path) && (Resolve(dirs, path).Some? ==> Resolve(dirs, path).value in g.lay)
      ensures r.Some? <==> Resolve(dirs, path).Some?
      ensures r.Some? ==> 0 <= Resolve(dirs, path).value < M.MAX_INUM && r.value == Tab()[Resolve(dirs, path).value]
    {
      hide Bits, M.Good, Resolve, Walkable, ProperPath;
      LayInRange(Tab(), blocks[..], Bits(Lsb, ibits[..]), Bits(Lsb, dbits[..]), g, dirs);
      var current, i := ROOT, 0;
      ResolveEmpty(dirs);
      assert path[..0] == [];
      while i < |path|
        invariant 0 <= i <= |path| && Resolve(dirs, path[..i]) == Some(current)
      {
        WalkOn(dirs, path, i, current);
        var entry := DirFind(current, path[i]);
        if entry.None? {
          return None;
        }
        current := entry.value.ino;
        i := i + 1;
      }
      assert path[..i] == path;
      var inode := ReadI(current);
      return Some(inode);
    }

    // The table of a directory goes to its block.
    method WriteTable(d: int, b: int, table: seq<M.Dirent>, ghost kids: map<Name, int>)
      requires Sound() && d in dirs && d in g.lay && g.lay[d].blocks == [b] && M.InData(b) && M.TableOk(table, kids)
      modifies `dirs, blocks
      ensures Sound() && dirs == old(dirs)[d := kids] && Files() == old(Files())
    {
      hide M.Good, Bits, M.Files, M.TableOk;
      ghost var bs, imarks, dmarks := blocks[..], ibits[..], dbits[..];
      M.SetTable(Tab(), bs, Bits(Lsb, ibits[..]), Bits(Lsb, dbits[..]), g, dirs, d, table, kids);
      blocks[b - M.D_START] := M.Dirents(table);
      assert blocks[..] == M.Set(bs, b, M.Dirents(table)) && ibits[..] == imarks && dbits[..] == dmarks;
      dirs := dirs[d := kids];
    }

    method WriteSize(ino: int, inode: M.Inode, size: int)
      requires Sound() && ino in g.lay && 0 <= ino < M.MAX_INUM && inode == Tab()[ino]
      requires ino !in dirs ==> 0 <= size <= M.BLOCK_SIZE * |g.lay[ino].blocks|
      modifies inodes
      ensures Sound()
      ensures Tab() == old(Tab())[ino := inode.(size := size)]
      ensures Files() == if ino in dirs then old(Files()) else old(Files())[ino := M.FileBytes(blocks[..], g.lay[ino], size)]
    {
      hide M.Good, Bits, M.Files, M.FileBytes;
      ghost var tab := Tab();
      M.SetSize(tab, blocks[..], Bits(Lsb, ibits[..]), Bits(Lsb, dbits[..]), g, dirs, ino, size);
      WriteI(ino, inode.(size := size));
    }

    // dir_add.
    method DirAdd(inode: M.Inode, fIno: int, name: Name) returns (r: Status)
      requires Sound() && inode.ino in dirs && 0 <= inode.ino < M.MAX_INUM && inode == Tab()[inode.ino] &&
        M.ProperName(name)
      modifies `dirs, inodes, blocks
      ensures Sound() && Files() == old(Files())
      ensures r in {Ok, Exists, NoSpace}
      ensures r == Exists <==> name in old(dirs)[inode.ino]
      ensures r == NoSpace <==> name !in old(dirs)[inode.ino] && |old(dirs)[inode.ino]| >= SLOTS
      ensures dirs == if r == Ok then WithEntry(old(dirs), inode.ino, name, fIno) else old(dirs)
    {
      hide M.Good, Bits, M.Files, M.TableOk;
      var d := inode.ino;
      DirFacts(Tab(), blocks[..], Bits(Lsb, ibits[..]), Bits(Lsb, dbits[..]), g, dirs, d);
      var found := DirFind(d, name);
      if found.Some? {
        return Exists;
      }
      var b := inode.direct[0];
      var table := blocks[b - M.D_START].table;
      TableSize(table, dirs[d]);
      var i := 0;
      while i < M.DIRENTS && table[i].valid
        invariant 0 <= i <= M.DIRENTS
        invariant forall k :: 0 <= k < i ==> table[k].valid
      {
        i := i + 1;
      }
      TableRoom(table, dirs[d]);
      if i == M.DIRENTS {
        return NoSpace;
      }
      assert !table[i].valid;
      TableAdd(table, dirs[d], i, name, fIno, |name|);
      WriteTable(d, b, table[i := M.Dirent(fIno, true, name, |name|)], dirs[d][name := fIno]);
      WriteSize(d, inode, inode.size + M.DIRENT_SIZE);
      return Ok;
    }

    // dir_remove, of a name the directory holds.
    method DirRemove(inode: M.Inode, name: Name)
      requires Sound() && inode.ino in dirs && 0 <= inode.ino < M.MAX_INUM && inode == Tab()[inode.ino]
      requires M.ProperName(name) && name in dirs[inode.ino]
      modifies `dirs, inodes, blocks
      ensures Sound() && Files() == old(Files())
      ensures dirs == WithoutEntry(old(dirs), inode.ino, name)
    {
      hide M.Good, Bits, M.Files, M.TableOk;
      var d := inode.ino;
      DirFacts(Tab(), blocks[..], Bits(Lsb, ibits[..]), Bits(Lsb, dbits[..]), g, dirs, d);
      var b := inode.direct[0];
      var table := blocks[b - M.D_START].table;
      ghost var at := TableFind(table, dirs[d], name);
      TableSize(table, dirs[d]);
      var i := 0;
      while table[i].name != name
        invariant 0 <= i <= at
        decreases at - i
      {
        i := i + 1;
      }
      TableRemove(table, dirs[d], i, name);
      WriteTable(d, b, table[i := M.Dirent(0, false, "", 0)], dirs[d] - {name});
      WriteSize(d, inode, inode.size - M.DIRENT_SIZE);
    }

    // ---------- making the file system ----------

    // rufs_mkfs: the root gets inode 0 and the first data block.
    constructor ()
      ensures Valid() && fresh(inodes) && fresh(blocks) && fresh(ibits) && fresh(dbits)
      ensures dirs == map[ROOT := map[]] && Files() == map[] && g.leaked == {} && g.spare == {}
    {
      var table := NewInodeBlocks();
      var data := NewDataBlocks();
      var inodeBits := NewBitmap(M.MAX_INUM / 8);
      var blockBits := NewBitmap(M.MAX_DNUM / 8);
      inodes, blocks, ibits, dbits := table, data, inodeBits, blockBits;
      g := M.Layout(map[], map[], {}, {});
      dirs := map[];
      new;
      hide M.Good, Bits, M.Files, TreeOk, AllFree;
      BlankDisk(Tab(), blocks[..], ibits[..], dbits[..]);
      MakeRoot();
      RootTree(dirs, g.lay.Keys);
    }

    method MakeRoot()
      requires Sound() && dirs == map[] && g == M.Layout(map[], map[], {}, {}) && Files() == map[]
      requires AllFree(Bits(Lsb, ibits[..])) && AllFree(Bits(Lsb, dbits[..]))
      modifies `g, `dirs, inodes, blocks, ibits, dbits
      ensures Sound() && dirs == map[ROOT := map[]] && Files() == map[]
      ensures g.lay.Keys == {ROOT} && g.leaked == {} && g.spare == {}
    {
      hide M.Good, Bits, M.Files;
      ghost var marks, ib, db := dbits[..], Bits(Lsb, ibits[..]), Bits(Lsb, dbits[..]);
      NoFreeMeans(ibits[..], dbits[..]);
      assert |ib| == M.MAX_INUM && |db| == M.MAX_DNUM && !ib[0] && !db[0] && !NoFree(ib) && !NoFree(db);
      var ino := GetAvailIno();
      assert dbits[..] == marks;
      var b := GetAvailBlkno(Tab());
      MakeDir(ino.value, ino.value, b);
    }

    // init_inode, init_dirent_table and their writes.
    method MakeDir(ino: int, parent: int, b: int)
      requires Sound() && ino in g.spare && b in g.leaked
      modifies `g, `dirs, inodes, blocks
      ensures ino !in old(g.lay) && Sound() && dirs == old(dirs)[ino := map[]] && Files() == old(Files())
      ensures g == M.Layout(old(g.lay)[ino := M.Lay([b], [])], old(g.own)[b := M.Data(ino, 0)], old(g.leaked) - {b}, old(g.spare) - {ino})
    {
      hide M.Good, Bits, M.Files, M.FreshTable, M.FreshInode;
      ghost var bs, imarks, dmarks := blocks[..], ibits[..], dbits[..];
      M.NewDir(Tab(), bs, Bits(Lsb, ibits[..]), Bits(Lsb, dbits[..]), g, dirs, ino, parent, b);
      blocks[b - M.D_START] := M.Dirents(M.FreshTable(ino, parent));
      assert blocks[..] == M.Set(bs, b, M.Dirents(M.FreshTable(ino, parent)));
      WriteI(ino, M.FreshInode(ino, true, M.NoDirect()[0 := b]));
      assert ibits[..] == imarks && dbits[..] == dmarks;
      g := M.Layout(g.lay[ino := M.Lay([b], [])], g.own[b := M.Data(ino, 0)], g.leaked - {b}, g.spare - {ino});
      dirs := dirs[ino := map[]];
    }

    method MakeFile(ino: int)
      requires Sound() && ino in g.spare
      modifies `g, inodes
      ensures ino !in old(g.lay) && Sound() && Files() == old(Files())[ino := []]
      ensures g == M.Layout(old(g.lay)[ino := M.Lay([], [])], old(g.own), old(g.leaked), old(g.spare) - {ino})
    {
      hide M.Good, Bits, M.Files, M.FreshInode;
      M.NewFile(Tab(), blocks[..], Bits(Lsb, ibits[..]), Bits(Lsb, dbits[..]), g, dirs, ino);
      WriteI(ino, M.FreshInode(ino, false, M.NoDirect()));
      g := M.Layout(g.lay[ino := M.Lay([], [])], g.own, g.leaked, g.spare - {ino});
    }

    // ---------- creating ----------

    // The parent's inode, as mkdir and create look it up.
    method ParentOf(path: Path) returns (parent: Option<M.Inode>)
      requires Valid() && path != [] && ProperPath(path) && Walkable(dirs, path)
      ensures parent.Some? <==> Resolve(dirs, path[..|path| - 1]).Some?
      ensures parent.Some? ==> parent.value.ino == Resolve(dirs, path[..|path| - 1]).value
      ensures parent.Some? ==> parent.value.ino in dirs && 0 <= parent.value.ino < M.MAX_INUM && parent.value == Tab()[parent.value.ino]
      ensures M.ProperName(path[|path| - 1])
    {
      hide M.Good, Bits, TreeOk;
      DirsStored(Tab(), blocks[..], Bits(Lsb, ibits[..]), Bits(Lsb, dbits[..]), g, dirs);
      ParentWalk(dirs, g.lay.Keys, path);
      parent := GetNodeByPath(path[..|path| - 1]);
    }

    // rufs_mkdir. The outcome is decided in the order of the checks. A call that fails
    // after it has taken an inode, or an inode and a block, leaves them marked: it restores
    // both bitmaps exactly when the parent is missing or the inode bitmap is full.
    method Mkdir(path: Path) returns (r: Status, ghost c: int)
      requires Valid() && path != [] && ProperPath(path) && Walkable(dirs, path)
      modifies `g, `dirs, inodes, blocks, ibits, dbits
      ensures Valid() && Files() == old(Files())
      ensures r == MakeOutcome(old(dirs), path, old(NoFree(Bits(Lsb, ibits[..])) || NoFree(Bits(Lsb, dbits[..]))))
      ensures r == NoEntry <==> Resolve(old(dirs), path[..|path| - 1]).None?
      ensures r == Exists <==>
                && Resolve(old(dirs), path[..|path| - 1]).Some? && !old(NoFree(Bits(Lsb, ibits[..])) || NoFree(Bits(Lsb, dbits[..])))
                && var d := Resolve(old(dirs), path[..|path| - 1]).value;
                d in old(dirs) && path[|path| - 1] in old(dirs)[d]
      ensures r == NoSpace <==>
                && Resolve(old(dirs), path[..|path| - 1]).Some?
                && var d := Resolve(old(dirs), path[..|path| - 1]).value;
                (old(NoFree(Bits(Lsb, ibits[..])) || NoFree(Bits(Lsb, dbits[..]))) || (d in old(dirs) && path[|path| - 1] !in old(dirs)[d] && |old(dirs)[d]| >= SLOTS))
      ensures r == Ok <==>
                && Resolve(old(dirs), path[..|path| - 1]).Some? && !old(NoFree(Bits(Lsb, ibits[..])) || NoFree(Bits(Lsb, dbits[..])))
                && var d := Resolve(old(dirs), path[..|path| - 1]).value;
                d in old(dirs) && path[|path| - 1] !in old(dirs)[d] && |old(dirs)[d]| < SLOTS
      ensures r == Ok ==> c !in old(dirs) && c !in old(g.lay) && c in dirs
      ensures r == Ok ==> OnlyAdds(old(dirs), dirs, path, c)
      ensures r == Ok ==> c == FirstClear(old(Bits(Lsb, ibits[..])))
      ensures r == Ok ==> NewDirLayout(old(g), g, c, M.D_START + FirstClear(old(Bits(Lsb, dbits[..]))))
      ensures r != Ok ==> dirs == old(dirs)
      ensures r != Ok ==>
                LeftMarked(old(g), g, old(Bits(Lsb, ibits[..])), Bits(Lsb, ibits[..]), old(Bits(Lsb, dbits[..])), Bits(Lsb, dbits[..]),
                           Resolve(old(dirs), path[..|path| - 1]).Some?, true)
      ensures r != Ok ==>
                (Bits(Lsb, ibits[..]) == old(Bits(Lsb, ibits[..])) && Bits(Lsb, dbits[..]) == old(Bits(Lsb, dbits[..]))
                 <==> Resolve(old(dirs), path[..|path| - 1]).None? || old(NoFree(Bits(Lsb, ibits[..]))))
    {
      hide M.Good, Bits, M.Files, TreeOk, Walkable, ProperPath, OnlyAdds;
      OutcomeCases(dirs, path, NoFree(Bits(Lsb, ibits[..])) || NoFree(Bits(Lsb, dbits[..])));
      ghost var ib, db, g0 := Bits(Lsb, ibits[..]), Bits(Lsb, dbits[..]), g;
      BitSizes(ibits[..], dbits[..]);
      var at, name := path[..|path| - 1], path[|path| - 1];
      c := ROOT;
      var parent := ParentOf(path);
      if parent.None? {
        return NoEntry, c;
      }
      ghost var d := Resolve(dirs, at).value;
      var ino := GetAvailIno();
      if ino.None? {
        return NoSpace, c;
      }
      var b := GetAvailBlkno(Tab());
      if b <= 0 {
        return NoSpace, c;
      }
      c := ino.value;
      r := EnterDir(parent.value, path, ino.value, b);
      assert g0.spare + {c} - {c} == g0.spare && g0.leaked + {b} - {b} == g0.leaked;
    }

    // The rest of mkdir, for a marked inode and a marked block.
    method EnterDir(parent: M.Inode, path: Path, ino: int, b: int) returns (r: Status)
      requires Valid() && path != [] && M.ProperName(path[|path| - 1])
      requires Resolve(dirs, path[..|path| - 1]) == Some(parent.ino)
      requires parent.ino in dirs && 0 <= parent.ino < M.MAX_INUM && parent == Tab()[parent.ino]
      requires ino in g.spare && b in g.leaked
      modifies `g, `dirs, inodes, blocks
      ensures Valid() && Files() == old(Files())
      ensures r == MakeOutcome(old(dirs), path, false)
      ensures r == Ok ==> ino !in old(dirs) && ino !in old(g.lay) && ino in dirs
      ensures r == Ok ==> OnlyAdds(old(dirs), dirs, path, ino)
      ensures r == Ok ==> NewDirLayout(old(g).(spare := old(g.spare) - {ino}, leaked := old(g.leaked) - {b}), g, ino, b)
      ensures r != Ok ==> dirs == old(dirs) && g == old(g)
    {
      hide M.Good, Bits, M.Files, TreeOk, OnlyAdds;
      ghost var dirs0, lay0, at, d, name := dirs, g.lay.Keys, path[..|path| - 1], parent.ino, path[|path| - 1];
      DirsStored(Tab(), blocks[..], Bits(Lsb, ibits[..]), Bits(Lsb, dbits[..]), g, dirs);
      r := DirAdd(parent, ino, path[|path| - 1]);
      if r != Ok {
        return;
      }
      MakeDir(ino, parent.ino, b);
      Made(dirs0, lay0, path, d, ino, true, dirs, g.lay.Keys);
    }

    // rufs_create. A file that cannot be entered in its parent leaves its inode marked: a
    // call that fails restores the bitmap exactly when the parent is missing or it is full.
    method Create(path: Path) returns (r: Status, ghost c: int)
      requires Valid() && path != [] && ProperPath(path) && Walkable(dirs, path)
      modifies `g, `dirs, inodes, blocks, ibits
      ensures Valid()
      ensures r == MakeOutcome(old(dirs), path, old(NoFree(Bits(Lsb, ibits[..]))))
      ensures r == NoEntry <==> Resolve(old(dirs), path[..|path| - 1]).None?
      ensures r == Exists <==>
                && Resolve(old(dirs), path[..|path| - 1]).Some? && !old(NoFree(Bits(Lsb, ibits[..])))
                && var d := Resolve(old(dirs), path[..|path| - 1]).value;
                d in old(dirs) && path[|path| - 1] in old(dirs)[d]
      ensures r == NoSpace <==>
                && Resolve(old(dirs), path[..|path| - 1]).Some?
                && var d := Resolve(old(dirs), path[..|path| - 1]).value;
                (old(NoFree(Bits(Lsb, ibits[..]))) || (d in old(dirs) && path[|path| - 1] !in old(dirs)[d] && |old(dirs)[d]| >= SLOTS))
      ensures r == Ok <==>
                && Resolve(old(dirs), path[..|path| - 1]).Some? && !old(NoFree(Bits(Lsb, ibits[..])))
                && var d := Resolve(old(dirs), path[..|path| - 1]).value;
                d in old(dirs) && path[|path| - 1] !in old(dirs)[d] && |old(dirs)[d]| < SLOTS
      ensures r == Ok ==> c !in old(g.lay) && c !in old(dirs) && Files() == old(Files())[c := []]
      ensures r == Ok ==> dirs.Keys == old(dirs.Keys)
      ensures r == Ok ==> OnlyAdds(old(dirs), dirs, path, c)
      ensures r == Ok ==> g == old(g).(lay := old(g.lay)[c := M.Lay([], [])])
      ensures r == Ok ==> c == FirstClear(old(Bits(Lsb, ibits[..])))
      ensures r != Ok ==> dirs == old(dirs) && Files() == old(Files())
      ensures r != Ok ==>
                LeftMarked(old(g), g, old(Bits(Lsb, ibits[..])), Bits(Lsb, ibits[..]), old(Bits(Lsb, dbits[..])), Bits(Lsb, dbits[..]),
                           Resolve(old(dirs), path[..|path| - 1]).Some?, false)
      ensures r != Ok ==>
                (Bits(Lsb, ibits[..]) == old(Bits(Lsb, ibits[..]))
                 <==> Resolve(old(dirs), path[..|path| - 1]).None? || old(NoFree(Bits(Lsb, ibits[..]))))
    {
      hide M.Good, Bits, M.Files, TreeOk, Walkable, ProperPath, OnlyAdds;
      OutcomeCases(dirs, path, NoFree(Bits(Lsb, ibits[..])));
      ghost var ib, db, marks := Bits(Lsb, ibits[..]), Bits(Lsb, dbits[..]), dbits[..];
      BitSizes(ibits[..], dbits[..]);
      c := ROOT;
      var parent := ParentOf(path);
      if parent.None? {
        return NoEntry, c;
      }
      ghost var spare0 := g.spare;
      var ino := GetAvailIno();
      if ino.None? {
        return NoSpace, c;
      }
      c := ino.value;
      assert dbits[..] == marks;
      r := EnterFile(parent.value, path, ino.value);
      assert spare0 + {c} - {c} == spare0;
    }

    // The rest of create, for a marked inode.
    method EnterFile(parent: M.Inode, path: Path, ino: int) returns (r: Status)
      requires Valid() && path != [] && M.ProperName(path[|path| - 1])
      requires Resolve(dirs, path[..|path| - 1]) == Some(parent.ino)
      requires parent.ino in dirs && 0 <= parent.ino < M.MAX_INUM && parent == Tab()[parent.ino]
      requires ino in g.spare
      modifies `g, `dirs, inodes, blocks
      ensures Valid()
      ensures r == MakeOutcome(old(dirs), path, false)
      ensures r == Ok ==> ino !in old(dirs) && ino !in old(g.lay) && Files() == old(Files())[ino := []]
      ensures r == Ok ==> dirs.Keys == old(dirs.Keys)
      ensures r == Ok ==> OnlyAdds(old(dirs), dirs, path, ino)
      ensures r == Ok ==> g == old(g).(lay := old(g.lay)[ino := M.Lay([], [])], spare := old(g.spare) - {ino})
      ensures r != Ok ==> dirs == old(dirs) && g == old(g) && Files() == old(Files())
    {
      hide M.Good, Bits, M.Files, TreeOk, OnlyAdds;
      ghost var dirs0, lay0, d := dirs, g.lay.Keys, parent.ino;
      DirsStored(Tab(), blocks[..], Bits(Lsb, ibits[..]), Bits(Lsb, dbits[..]), g, dirs);
      r := DirAdd(parent, ino, path[|path| - 1]);
      if r != Ok {
        return;
      }
      MakeFile(ino);
      Made(dirs0, lay0, path, d, ino, false, dirs, g.lay.Keys);
    }

    // ---------- removing ----------

    // From here on nothing refers to inode c or its blocks: they are only marked.
    ghost method GiveUp(c: int)
      requires Sound() && c in g.lay
      modifies `g, `dirs
      ensures Sound() && dirs == old(dirs) - {c} && Files() == old(Files()) - {c}
      ensures c !in old(g.spare) && Clearing(old(g.lay)[c], old(g.leaked), 0, 0)
      ensures g == M.Layout(old(g.lay) - {c}, old(g.own) - M.Pieces(old(g.lay)[c]), g.leaked, old(g.spare) + {c})
      ensures c in old(dirs) ==> |old(g.lay)[c].blocks| == 1 && old(g.lay)[c].inds == []
    {
      hide M.Good, Bits, M.Files;
      ghost var l := g.lay[c];
      GivenUp(Tab(), blocks[..], Bits(Lsb, ibits[..]), Bits(Lsb, dbits[..]), g, dirs, c);
      g := M.Layout(g.lay - {c}, g.own - M.Pieces(l), g.leaked + M.Pieces(l), g.spare + {c});
      dirs := dirs - {c};
      assert l.blocks[0..] == l.blocks && l.inds[0..] == l.inds;
    }

    // The blocks of a file have been given up (base is what was marked besides them);
    // the first f blocks and k indirect blocks are cleared already.
    ghost predicate Clearing(l: M.Lay, base: set<int>, f: int, k: int)
      reads this, blocks
    {
      && 0 <= f <= |l.blocks| && 0 <= k <= |l.inds|
      && Apart(l, base)
      && g.leaked == base + M.Elements(l.blocks[f..]) + M.Elements(l.inds[k..])
      && (forall j :: k <= j < |l.inds| ==> M.IndOk(blocks[..], l, j))
    }

    method ClearNextBlock(b: int, ghost l: M.Lay, ghost base: set<int>, ghost f: int, ghost k: int)
      requires Sound() && Clearing(l, base, f, k) && f < |l.blocks| && b == l.blocks[f]
      modifies `g, blocks, dbits
      ensures Sound() && g == old(g).(leaked := g.leaked) && Files() == old(Files())
      ensures Clearing(l, base, f + 1, k)
    {
      hide M.Good, Bits, M.Files, M.Slots;
      NextPieces(l, base, f, k);
      ghost var bs := blocks[..];
      ClearDataBlock(b);
      forall j | k <= j < |l.inds| ensures M.IndOk(blocks[..], l, j) {
        assert M.IndOk(bs, l, j) && l.inds[j] != b;
      }
    }

    method ClearNextIndirect(b: int, ghost l: M.Lay, ghost base: set<int>, ghost f: int, ghost k: int)
      requires Sound() && Clearing(l, base, f, k) && k < |l.inds| && b == l.inds[k]
      modifies `g, blocks, dbits
      ensures Sound() && g == old(g).(leaked := g.leaked) && Files() == old(Files())
      ensures Clearing(l, base, f, k + 1)
    {
      hide M.Good, Bits, M.Files, M.Slots;
      NextPieces(l, base, f, k);
      ghost var bs := blocks[..];
      ClearDataBlock(b);
      forall j | k + 1 <= j < |l.inds| ensures M.IndOk(blocks[..], l, j) {
        assert M.IndOk(bs, l, j) && l.inds[j] != b;
      }
    }

    // The loop over the direct pointers, common to unlink and rmdir.
    method ClearDirect(inode: M.Inode, ghost l: M.Lay, ghost base: set<int>)
      requires Sound() && Clearing(l, base, 0, 0) && M.Slots(inode.direct, l.blocks, 0, M.DIRECT)
      requires forall i :: 0 <= i < |l.blocks| ==> l.blocks[i] != -1
      modifies `g, blocks, dbits
      ensures Sound() && g == old(g).(leaked := g.leaked) && Files() == old(Files())
      ensures Clearing(l, base, Upto(l, 0), 0)
    {
      hide M.Good, Bits, M.Files, Clearing;
      var i := 0;
      while i < M.DIRECT
        invariant 0 <= i <= M.DIRECT
        invariant Sound() && g == old(g).(leaked := g.leaked) && Files() == old(Files())
        invariant Clearing(l, base, if i <= |l.blocks| then i else |l.blocks|, 0)
      {
        if inode.direct[i] != -1 {
          ClearNextBlock(inode.direct[i], l, base, i, 0);
        }
        i := i + 1;
      }
    }

    // One indirect block of unlink: its entries up to the first -1, then the block.
    method ClearIndirect(b: int, ghost l: M.Lay, ghost base: set<int>, ghost k: int)
      requires Sound() && Clearing(l, base, Upto(l, k), k) && 0 <= k < |l.inds| && b == l.inds[k]
      requires M.DIRECT + M.CAP * k <= |l.blocks|
      requires forall i :: 0 <= i < |l.blocks| ==> l.blocks[i] != -1
      modifies `g, blocks, dbits
      ensures Sound() && g == old(g).(leaked := g.leaked) && Files() == old(Files())
      ensures Clearing(l, base, Upto(l, k + 1), k + 1)
    {
      hide M.Good, Bits, M.Files, Clearing, Apart, M.Slots, M.IndOk, Upto;
      ghost var bs, f := blocks[..], M.DIRECT + M.CAP * k;
      UptoNext(l, k, 0);
      IndirectThere(l, base, Upto(l, k), k);
      Entry(bs, l, k, 0);
      var ptrs := blocks[b - M.D_START].ptrs;
      var j := 0;
      while j < M.CAP && ptrs[j] != -1
        invariant 0 <= j <= M.CAP && f + j <= |l.blocks| && (j < M.CAP ==> (ptrs[j] != -1 <==> f + j < |l.blocks|))
        invariant Sound() && g == old(g).(leaked := g.leaked) && Files() == old(Files())
        invariant Clearing(l, base, f + j, k)
      {
        Entry(bs, l, k, j);
        Entry(bs, l, k, j + 1);
        ClearNextBlock(ptrs[j], l, base, f + j, k);
        j := j + 1;
      }
      UptoNext(l, k, j);
      ClearNextIndirect(b, l, base, f + j, k);
    }

    // Both loops of unlink. As written the second one runs over 16 indirect pointers,
    // of which there are 8.
    method ClearBlocks(inode: M.Inode, ghost l: M.Lay, ghost base: set<int>)
      requires Sound() && Clearing(l, base, 0, 0) && M.LayOk(l, false)
      requires M.Slots(inode.direct, l.blocks, 0, M.DIRECT) && M.Slots(inode.indirect, l.inds, 0, M.INDIRECT)
      requires forall i :: 0 <= i < |l.blocks| ==> l.blocks[i] != -1
      requires forall k :: 0 <= k < |l.inds| ==> l.inds[k] != -1
      modifies `g, blocks, dbits
      ensures Sound() && g == old(g).(leaked := base) && Files() == old(Files())
    {
      ClearDirect(inode, l, base);
      hide M.Good, Bits, M.Files, Clearing, M.Slots, M.LayOk, Upto;
      var k := 0;
      IndirectUsed(inode, l, k);
      while k < M.INDIRECT && inode.indirect[k] != -1
        invariant 0 <= k <= |l.inds| && (k < M.INDIRECT && inode.indirect[k] != -1 <==> k < |l.inds|)
        invariant Sound() && g == old(g).(leaked := g.leaked) && Files() == old(Files())
        invariant Clearing(l, base, Upto(l, k), k)
      {
        IndirectUsed(inode, l, k);
        ClearIndirect(inode.indirect[k], l, base, k);
        IndirectUsed(inode, l, k + 1);
        k := k + 1;
      }
      IndirectUsed(inode, l, k);
      AllCleared(l, base);
    }

    lemma IndirectThere(l: M.Lay, base: set<int>, f: int, k: int)
      requires Clearing(l, base, f, k) && k < |l.inds|
      ensures M.IndOk(blocks[..], l, k)
    {
      hide Apart;
    }

    lemma AllCleared(l: M.Lay, base: set<int>)
      requires Clearing(l, base, |l.blocks|, |l.inds|)
      ensures g.leaked == base
    {
      assert M.Elements(l.blocks[|l.blocks|..]) == {} && M.Elements(l.inds[|l.inds|..]) == {};
    }

    // What a lookup of a whole path needs.
    lemma Lookup(path: Path)
      requires Valid() && path != [] && Walkable(dirs, path)
      ensures ROOT in dirs && dirs.Keys <= g.lay.Keys
      ensures Resolve(dirs, path).Some? ==> Resolve(dirs, path).value in g.lay
    {
      DirsStored(Tab(), blocks[..], Bits(Lsb, ibits[..]), Bits(Lsb, dbits[..]), g, dirs);
      hide M.Good, Bits;
      if Resolve(dirs, path).Some? {
        ResolvedIsNode(dirs, g.lay.Keys - dirs.Keys, path);
      }
    }

    lemma FilesAreNotDirs(c: int)
      requires Shape() && c in dirs
      ensures Files() - {c} == Files()
    {
      hide M.FileBytes;
    }

    // The end of unlink and rmdir: inode c is gone, its name is still in the parent.
    method RemoveName(path: Path, ghost dirs0: Dirs, ghost lay0: set<int>, ghost c: int)
      requires Sound() && dirs == dirs0 - {c} && g.lay.Keys == lay0 - {c}
      requires TreeOk(dirs0, lay0 - dirs0.Keys) && dirs0.Keys <= lay0 && Leaf(dirs0, c)
      requires path != [] && ProperPath(path) && Walkable(dirs0, path) && Resolve(dirs0, path) == Some(c)
      modifies `dirs, inodes, blocks
      ensures Sound() && TreeOk(dirs, g.lay.Keys - dirs.Keys)
      ensures OnlyRemoves(dirs0, dirs, path) && Files() == old(Files())
    {
      hide M.Good, Bits, M.Files, TreeOk, Walkable, ProperPath, OnlyRemoves, Leaf;
      ghost var d := ParentOfLeaf(dirs0, lay0, path, c);
      DirsStored(Tab(), blocks[..], Bits(Lsb, ibits[..]), Bits(Lsb, dbits[..]), g, dirs);
      var parent := GetNodeByPath(path[..|path| - 1]);
      DirRemove(parent.value, path[|path| - 1]);
      LeafGone(dirs0, lay0, path, d, c);
    }

    // rufs_unlink, of a file.
    method Unlink(path: Path) returns (r: Status)
      requires Valid() && path != [] && ProperPath(path) && Walkable(dirs, path)
      requires Resolve(dirs, path).Some? ==> Resolve(dirs, path).value !in dirs
      modifies `g, `dirs, inodes, blocks, ibits, dbits
      ensures Valid()
      ensures r == if Resolve(old(dirs), path).Some? then Ok else NoEntry
      ensures r == NoEntry ==> dirs == old(dirs) && g == old(g) && Files() == old(Files())
      ensures r == Ok ==> OnlyRemoves(old(dirs), dirs, path)
      ensures r == Ok ==> Files() == old(Files()) - {Resolve(old(dirs), path).value}
      ensures r == Ok ==> Forgotten(old(g), g, Resolve(old(dirs), path).value)
    {
      hide M.Good, Bits, M.Files, TreeOk, Walkable, ProperPath, OnlyRemoves, Clearing;
      ghost var dirs0, lay0, spare0 := dirs, g.lay, g.spare;
      Lookup(path);
      var inode := GetNodeByPath(path);
      if inode.None? {
        return NoEntry;
      }
      ghost var c := Resolve(dirs, path).value;
      ghost var l, base := g.lay[c], g.leaked;
      FileFacts(Tab(), blocks[..], Bits(Lsb, ibits[..]), Bits(Lsb, dbits[..]), g, dirs, c);
      GiveUp(c);
      ClearBlocks(inode.value, l, base);
      ClearInode(inode.value.ino);
      assert spare0 + {c} - {c} == spare0;
      RemoveName(path, dirs0, lay0.Keys, c);
      return Ok;
    }

    // rufs_rmdir, with the table that the emptiness test is meant to look at.
    method Rmdir(path: Path) returns (r: Status)
      requires Valid() && path != [] && ProperPath(path) && Walkable(dirs, path)
      requires Resolve(dirs, path).Some? ==> Resolve(dirs, path).value in dirs
      modifies `g, `dirs, inodes, blocks, ibits, dbits
      ensures Valid() && Files() == old(Files())
      ensures r == match Resolve(old(dirs), path)
                   case None => NoEntry
                   case Some(c) => if c in old(dirs) && old(dirs)[c] != map[] then NotEmpty else Ok
      ensures r != Ok ==> dirs == old(dirs) && g == old(g)
      ensures r == Ok ==> OnlyRemoves(old(dirs), dirs, path)
      ensures r == Ok ==> Forgotten(old(g), g, Resolve(old(dirs), path).value)
    {
      hide M.Good, Bits, M.Files, TreeOk, Walkable, ProperPath, OnlyRemoves, Clearing, M.TableOk;
      ghost var dirs0, lay0, spare0 := dirs, g.lay, g.spare;
      Lookup(path);
      var inode := GetNodeByPath(path);
      if inode.None? {
        return NoEntry;
      }
      ghost var c := Resolve(dirs, path).value;
      ghost var l, base := g.lay[c], g.leaked;
      DirFacts(Tab(), blocks[..], Bits(Lsb, ibits[..]), Bits(Lsb, dbits[..]), g, dirs, c);
      var empty := IsDirectoryEmpty(blocks[inode.value.direct[0] - M.D_START].table, dirs[c]);
      if !empty {
        return NotEmpty;
      }
      FileFacts(Tab(), blocks[..], Bits(Lsb, ibits[..]), Bits(Lsb, dbits[..]), g, dirs, c);
      FilesAreNotDirs(c);
      GiveUp(c);
      ClearDirect(inode.value, l, base);
      AllCleared(l, base);
      ClearInode(inode.value.ino);
      assert spare0 + {c} - {c} == spare0;
      RemoveName(path, dirs0, lay0.Keys, c);
      return Ok;
    }

    // ---------- file blocks ----------

    // The state in which a write works: the inode in memory stands for the one on disk.
    ghost predicate Loaded(ino: int, inode: M.Inode)
      reads this, inodes, blocks, ibits, dbits
    {
      Shape() && 0 <= ino < M.MAX_INUM && Holds(Tab()[ino := inode]) && ino in g.lay && ino !in dirs
    }

    // The block of the disk that holds file block n, or -1.
    method BlockOf(ino: int, inode: M.Inode, n: int) returns (b: int)
      requires Loaded(ino, inode) && 0 <= n < M.MAX_BLOCKS
      ensures b == if n < |g.lay[ino].blocks| then g.lay[ino].blocks[n] else -1
    {
      hide Bits;
      ghost var tab := Tab()[ino := inode];
      PointerFacts(tab, blocks[..], Bits(Lsb, ibits[..]), Bits(Lsb, dbits[..]), g, dirs, ino, n);
      hide M.Good;
      if n < M.DIRECT {
        return inode.direct[n];
      }
      var k := M.IndOf(n);
      if inode.indirect[k] == -1 {
        return -1;
      }
      return blocks[inode.indirect[k] - M.D_START].ptrs[M.IndexIn(n)];
    }

    // A direct pointer is filled.
    method NewDirect(ino: int, inode: M.Inode, n: int) returns (inode': M.Inode, b: int)
      requires Loaded(ino, inode) && 0 <= n < M.DIRECT && n == |g.lay[ino].blocks|
      modifies `g, dbits
      ensures Loaded(ino, inode') && Kept(old(g), g, ino) && inode'.size == inode.size
      ensures SameBytes(blocks[..], old(g.lay)[ino], blocks[..], g.lay[ino])
      ensures FilesIn(Tab()[ino := inode']) == old(FilesIn(Tab()[ino := inode]))
      ensures b == -1 ==> NoFree(Bits(Lsb, dbits[..])) && g == old(g) && inode' == inode
      ensures b != -1 ==> g.lay[ino] == M.Lay(old(g.lay)[ino].blocks + [b], old(g.lay)[ino].inds)
    {
      hide M.Good, Bits, M.Files, M.Byte, NoFree;
      ghost var tab, g0 := Tab()[ino := inode], g;
      inode' := inode;
      b := GetAvailBlkno(tab);
      if b < 0 {
        KeptSame(g0, ino);
        return;
      }
      M.AppendDirect(tab, blocks[..], Bits(Lsb, ibits[..]), Bits(Lsb, dbits[..]), g, dirs, ino, b);
      inode' := inode.(direct := inode.direct[n := b]);
      assert tab[ino := inode'] == Tab()[ino := inode'];
      g := M.Layout(g.lay[ino := M.Lay(g.lay[ino].blocks + [b], g.lay[ino].inds)], g.own[b := M.Data(ino, n)], g.leaked - {b}, g.spare);
      KeptBlock(g0, g, ino, b);
    }

    // A fresh indirect block is attached.
    method NewIndirect(ino: int, inode: M.Inode, n: int) returns (inode': M.Inode, b: int)
      requires Loaded(ino, inode) && M.DIRECT <= n < M.MAX_BLOCKS && n == |g.lay[ino].blocks| &&
        M.IndOf(n) == |g.lay[ino].inds|
      modifies `g, blocks, dbits
      ensures Loaded(ino, inode') && Kept(old(g), g, ino) && inode'.size == inode.size
      ensures SameBytes(old(blocks[..]), old(g.lay)[ino], blocks[..], g.lay[ino])
      ensures FilesIn(Tab()[ino := inode']) == old(FilesIn(Tab()[ino := inode]))
      ensures b == -1 ==> NoFree(Bits(Lsb, dbits[..])) && g == old(g) && inode' == inode
      ensures b != -1 ==> g.lay[ino] == M.Lay(old(g.lay)[ino].blocks, old(g.lay)[ino].inds + [b])
    {
      hide M.Good, Bits, M.Files, M.Byte, NoFree, M.NoPtrs;
      ghost var tab, g0, bs := Tab()[ino := inode], g, blocks[..];
      inode' := inode;
      b := GetAvailBlkno(tab);
      if b < 0 {
        KeptSame(g0, ino);
        return;
      }
      ghost var imarks, dmarks := ibits[..], dbits[..];
      M.AttachIndirect(tab, bs, Bits(Lsb, ibits[..]), Bits(Lsb, dbits[..]), g, dirs, ino, b);
      inode' := inode.(indirect := inode.indirect[M.IndOf(n) := b]);
      blocks[b - M.D_START] := M.NoPtrs();
      assert tab[ino := inode'] == Tab()[ino := inode'] && ibits[..] == imarks && dbits[..] == dmarks;
      assert blocks[..] == M.Set(bs, b, M.NoPtrs());
      g := M.Layout(g.lay[ino := M.Lay(g.lay[ino].blocks, g.lay[ino].inds + [b])], g.own[b := M.Ind(ino, |g.lay[ino].inds|)], g.leaked - {b}, g.spare);
      KeptIndirect(g0, g, ino, b);
    }

    // An entry of an indirect block is filled.
    method NewEntry(ino: int, inode: M.Inode, n: int) returns (b: int)
      requires Loaded(ino, inode) && M.DIRECT <= n < M.MAX_BLOCKS && n == |g.lay[ino].blocks| &&
        M.IndOf(n) < |g.lay[ino].inds|
      modifies `g, blocks, dbits
      ensures Loaded(ino, inode) && Kept(old(g), g, ino)
      ensures SameBytes(old(blocks[..]), old(g.lay)[ino], blocks[..], g.lay[ino])
      ensures FilesIn(Tab()[ino := inode]) == old(FilesIn(Tab()[ino := inode]))
      ensures b == -1 ==> NoFree(Bits(Lsb, dbits[..])) && g == old(g)
      ensures b != -1 ==> g.lay[ino] == M.Lay(old(g.lay)[ino].blocks + [b], old(g.lay)[ino].inds)
    {
      hide M.Good, Bits, M.Files, M.Byte, NoFree, M.IndOk;
      ghost var tab, g0, bs := Tab()[ino := inode], g, blocks[..];
      PointerFacts(tab, bs, Bits(Lsb, ibits[..]), Bits(Lsb, dbits[..]), g, dirs, ino, n);
      b := GetAvailBlkno(tab);
      if b < 0 {
        KeptSame(g0, ino);
        return;
      }
      ghost var imarks, dmarks := ibits[..], dbits[..];
      M.AppendIndirect(tab, bs, Bits(Lsb, ibits[..]), Bits(Lsb, dbits[..]), g, dirs, ino, b);
      var c := inode.indirect[M.IndOf(n)];
      blocks[c - M.D_START] := M.Ptrs(blocks[c - M.D_START].ptrs[M.IndexIn(n) := b]);
      assert ibits[..] == imarks && dbits[..] == dmarks;
      assert blocks[..] == M.Set(bs, c, M.Ptrs(M.At(bs, c).ptrs[M.IndexIn(n) := b]));
      g := M.Layout(g.lay[ino := M.Lay(g.lay[ino].blocks + [b], g.lay[ino].inds)], g.own[b := M.Data(ino, n)], g.leaked - {b}, g.spare);
      KeptBlock(g0, g, ino, b);
    }

    // The part of the write loop that finds or allocates the block of file block n.
    // The block is -1 when the bitmap is full.
    method MapBlock(ino: int, inode: M.Inode, n: int) returns (inode': M.Inode, b: int)
      requires Loaded(ino, inode) && 0 <= n < M.MAX_BLOCKS && n <= |g.lay[ino].blocks|
      modifies `g, blocks, dbits
      ensures Loaded(ino, inode') && Kept(old(g), g, ino) && inode'.size == inode.size
      ensures SameBytes(old(blocks[..]), old(g.lay)[ino], blocks[..], g.lay[ino])
      ensures FilesIn(Tab()[ino := inode']) == old(FilesIn(Tab()[ino := inode]))
      ensures b == -1 ==> NoFree(Bits(Lsb, dbits[..])) && n == |g.lay[ino].blocks| == |old(g.lay)[ino].blocks|
      ensures b != -1 ==> n < |g.lay[ino].blocks| && b == g.lay[ino].blocks[n]
      ensures b != -1 ==> |g.lay[ino].blocks| == if n < |old(g.lay)[ino].blocks| then |old(g.lay)[ino].blocks| else n + 1
    {
      hide M.Good, Bits, M.Files, M.Byte, NoFree, M.Extends, OwnRest;
      ghost var tab, g0, bs := Tab()[ino := inode], g, blocks[..];
      NoPointerIsNone(tab, bs, Bits(Lsb, ibits[..]), Bits(Lsb, dbits[..]), g, dirs, ino);
      KeptSame(g0, ino);
      inode' := inode;
      b := BlockOf(ino, inode, n);
      if b != -1 {
        return;
      }
      if n < M.DIRECT {
        inode', b := NewDirect(ino, inode, n);
        NoPointerIsNone(Tab()[ino := inode'], blocks[..], Bits(Lsb, ibits[..]), Bits(Lsb, dbits[..]), g, dirs, ino);
        return;
      }
      inode', b := NewPlace(ino, inode, n);
    }

    // A missing entry beyond the direct pointers, with its indirect block if that is
    // missing too.
    method NewPlace(ino: int, inode: M.Inode, n: int) returns (inode': M.Inode, b: int)
      requires Loaded(ino, inode) && M.DIRECT <= n < M.MAX_BLOCKS && n == |g.lay[ino].blocks|
      modifies `g, blocks, dbits
      ensures Loaded(ino, inode') && Kept(old(g), g, ino) && inode'.size == inode.size
      ensures SameBytes(old(blocks[..]), old(g.lay)[ino], blocks[..], g.lay[ino])
      ensures FilesIn(Tab()[ino := inode']) == old(FilesIn(Tab()[ino := inode]))
      ensures b == -1 ==> NoFree(Bits(Lsb, dbits[..])) && n == |g.lay[ino].blocks|
      ensures b != -1 ==> g.lay[ino].blocks == old(g.lay)[ino].blocks + [b]
    {
      hide M.Good, Bits, M.Files, M.Byte, NoFree, M.Extends, OwnRest;
      ghost var tab, g0, bs, l0 := Tab()[ino := inode], g, blocks[..], g.lay[ino];
      PointerFacts(tab, bs, Bits(Lsb, ibits[..]), Bits(Lsb, dbits[..]), g, dirs, ino, n);
      IndsAtEnd(tab, bs, Bits(Lsb, ibits[..]), Bits(Lsb, dbits[..]), g, dirs, ino);
      KeptSame(g0, ino);
      inode' := inode;
      if inode.indirect[M.IndOf(n)] == -1 {
        inode', b := NewIndirect(ino, inode, n);
        if b == -1 {
          return;
        }
      }
      ghost var g1, bs1, l1 := g, blocks[..], g.lay[ino];
      b := NewEntry(ino, inode', n);
      KeptTwice(g0, g1, g, ino);
      SameBytesTwice(bs, l0, bs1, l1, blocks[..], g.lay[ino]);
    }

    // The copy into a block of the file.
    method PutChunk(ghost ino: int, ghost inode: M.Inode, ghost n: int, b: int, o: int, bytes: seq<bv8>)
      requires Loaded(ino, inode) && 0 <= n < |g.lay[ino].blocks| && b == g.lay[ino].blocks[n]
      requires 0 <= o && o + |bytes| <= M.BLOCK_SIZE
      modifies blocks
      ensures Loaded(ino, inode)
      ensures FilesIn(Tab()[ino := inode]) == old(FilesIn(Tab()[ino := inode]))[ino := M.FileBytes(blocks[..], g.lay[ino], inode.size)]
      ensures PutBytes(old(blocks[..]), blocks[..], g.lay[ino], n, o, bytes)
    {
      hide M.Good, Bits, M.Files, M.FileBytes, M.Byte;
      ghost var tab, bs, l, imarks, dmarks := Tab()[ino := inode], blocks[..], g.lay[ino], ibits[..], dbits[..];
      DataThere(tab, bs, Bits(Lsb, ibits[..]), Bits(Lsb, dbits[..]), g, dirs, ino, n);
      var was := blocks[b - M.D_START].bytes;
      var now := was[..o] + bytes + was[o + |bytes|..];
      M.WriteData(tab, bs, Bits(Lsb, ibits[..]), Bits(Lsb, dbits[..]), g, dirs, ino, n, now);
      blocks[b - M.D_START] := M.Raw(now);
      assert blocks[..] == M.Set(bs, b, M.Raw(now)) && ibits[..] == imarks && dbits[..] == dmarks;
      PutBytesHold(bs, blocks[..], l, n, o, bytes, was, now);
    }

    // ---------- writing ----------

    // The write loop when done bytes are in place, the next one goes to byte o of file
    // block n. F0, g0 and bs0 are the files, layout and blocks at the start.
    ghost predicate Writing(ino: int, inode: M.Inode, tab0: seq<M.Inode>, F0: map<int, seq<bv8>>, g0: M.Layout,
            bs0: seq<M.Block>,
                            offset: nat, buf: seq<bv8>, done: int, n: int, o: int)
      reads this, inodes, blocks, ibits, dbits
    {
      && ino in g0.lay && Loaded(ino, inode) && Tab() == tab0 && inode.size == tab0[ino].size && Kept(g0, g, ino)
      && FilesIn(Tab()[ino := inode]) - {ino} == F0 - {ino}
      && 0 <= done <= |buf|
      && Position(g0.lay[ino], g.lay[ino], offset, |buf|, done, n, o)
      && Written(bs0, g0.lay[ino], blocks[..], g.lay[ino], offset, buf[..done])
    }

    // One turn of the loop. Without a free block nothing is written.
    method WriteTurn(ino: int, inode: M.Inode, ghost tab0: seq<M.Inode>, ghost F0: map<int, seq<bv8>>,
            ghost g0: M.Layout, ghost bs0: seq<M.Block>,
                     ghost offset: nat, ghost buf: seq<bv8>, ghost done: int, n: int, o: int, rest: seq<bv8>)
      returns (inode': M.Inode, c: int)
      requires Writing(ino, inode, tab0, F0, g0, bs0, offset, buf, done, n, o) && done < |buf| && rest == buf[done..]
      requires offset + |buf| <= M.MAX_BLOCKS * M.BLOCK_SIZE
      modifies `g, blocks, dbits
      ensures inode'.ino == ino
      ensures c == 0 || c == if |rest| <= M.BLOCK_SIZE - o then |rest| else M.BLOCK_SIZE - o
      ensures c == 0 ==> ino in g.lay && n == |g.lay[ino].blocks|
      ensures c == 0 ==> NoFree(Bits(Lsb, dbits[..])) && Writing(ino, inode', tab0, F0, g0, bs0, offset, buf, done, n, o)
      ensures c != 0 ==> 0 < c && Writing(ino, inode', tab0, F0, g0, bs0, offset, buf, done + c, n + 1, 0)
    {
      hide M.Good, Bits, M.Files, M.Byte, M.FileBytes, NoFree, Kept, Written, SameBytes, PutBytes, Position;
      ghost var g1, bs1 := g, blocks[..];
      InRange(g0.lay[ino], g.lay[ino], offset, |buf|, done, n, o);
      var b;
      inode', b := MapBlock(ino, inode, n);
      KeptTwice(g0, g1, g, ino);
      ghost var bs2, l2 := blocks[..], g.lay[ino];
      WrittenStill(bs0, g0.lay[ino], bs1, g1.lay[ino], bs2, l2, offset, buf[..done]);
      NoPointerIsNone(Tab()[ino := inode'], bs2, Bits(Lsb, ibits[..]), Bits(Lsb, dbits[..]), g, dirs, ino);
      c := 0;
      if b < 0 {
        PositionStays(g0.lay[ino], g1.lay[ino], l2, offset, |buf|, done, n, o);
        return;
      }
      c := if |rest| <= M.BLOCK_SIZE - o then |rest| else M.BLOCK_SIZE - o;
      PositionMoves(g0.lay[ino], g1.lay[ino], l2, offset, |buf|, done, n, o, c);
      PutChunk(ino, inode', n, b, o, rest[..c]);
      assert buf[..done] + rest[..c] == buf[..done + c];
      WrittenMore(bs0, g0.lay[ino], bs2, blocks[..], l2, offset, buf[..done], n, o, rest[..c]);
    }

    lemma StartWriting(ino: int, inode: M.Inode, offset: nat, buf: seq<bv8>)
      requires Sound() && ino in g.lay && ino !in dirs && 0 <= ino < M.MAX_INUM && inode == Tab()[ino]
      requires M.InodeOk(inode, ino, false, g.lay[ino]) && offset <= inode.size
      ensures Writing(ino, inode, Tab(), Files(), g, blocks[..], offset, buf, 0, offset / M.BLOCK_SIZE, offset % M.BLOCK_SIZE)
    {
      hide M.Good, Bits, M.Files, M.FileBytes, M.Byte;
      M.SameUpdate(Tab(), ino);
      KeptSame(g, ino);
    }

    // The loop could not go on.
    ghost method StopWriting(ino: int, inode: M.Inode, tab0: seq<M.Inode>, F0: map<int, seq<bv8>>, g0: M.Layout,
            bs0: seq<M.Block>,
                             offset: nat, buf: seq<bv8>, done: int, n: int, o: int)
      requires Writing(ino, inode, tab0, F0, g0, bs0, offset, buf, done, n, o) && done < |buf|
      requires n == |g.lay[ino].blocks|
      requires M.InodeOk(tab0[ino], ino, false, g0.lay[ino]) && M.LayOk(g0.lay[ino], false)
      requires ino in F0 && F0[ino] == M.FileBytes(bs0, g0.lay[ino], tab0[ino].size) && offset <= tab0[ino].size
      modifies `g
      ensures Sound() && g.lay.Keys == g0.lay.Keys && g.spare == g0.spare
      ensures WriteOutcome(ino, F0, Files(), g0, g, offset, buf, done, if n < M.DIRECT then Count(done) else Full)
    {
      hide M.Good, Bits, M.Files, M.FileBytes, M.Byte, Written, Overwrite;
      ghost var l := g.lay[ino];
      KeptKeys(g0, g, ino);
      StoppedBytes(bs0, g0.lay[ino], blocks[..], l, tab0[ino].size, offset, buf[..done]);
      Abandon(ino, inode, F0, g0);
    }

    // After the loop.
    method FinishWriting(inode: M.Inode, ghost ino: int, ghost tab0: seq<M.Inode>, ghost F0: map<int, seq<bv8>>,
            ghost g0: M.Layout, ghost bs0: seq<M.Block>,
                         offset: nat, buf: seq<bv8>, ghost n: int, ghost o: int)
      requires Writing(ino, inode, tab0, F0, g0, bs0, offset, buf, |buf|, n, o) && inode.ino == ino
      requires M.InodeOk(tab0[ino], ino, false, g0.lay[ino])
      requires ino in F0 && F0[ino] == M.FileBytes(bs0, g0.lay[ino], tab0[ino].size) && offset <= tab0[ino].size
      modifies inodes
      ensures Sound() && g.lay.Keys == g0.lay.Keys && g.spare == g0.spare
      ensures WriteOutcome(ino, F0, Files(), g0, g, offset, buf, |buf|, Count(|buf|))
    {
      hide M.Good, Bits, M.Files, M.FileBytes, M.Byte, Written, Overwrite, M.Slots;
      var size := if offset + |buf| > inode.size then offset + |buf| else inode.size;
      KeptKeys(g0, g, ino);
      assert buf[..|buf|] == buf;
      FinishedBytes(bs0, g0.lay[ino], blocks[..], g.lay[ino], inode.size, offset, buf);
      FinishedExact(g0.lay[ino], g.lay[ino], inode.size, offset, |buf|, n, o);
      Flush(inode.ino, inode, size, F0);
    }

    // The inode in memory goes to disk with its new size.
    method Flush(ino: int, inode: M.Inode, size: int, ghost F0: map<int, seq<bv8>>)
      requires Loaded(ino, inode) && 0 <= size <= M.BLOCK_SIZE * |g.lay[ino].blocks|
      requires FilesIn(Tab()[ino := inode]) - {ino} == F0 - {ino}
      modifies inodes
      ensures Sound() && Files() == F0[ino := M.FileBytes(blocks[..], g.lay[ino], size)]
    {
      hide M.Good, Bits, M.FileBytes;
      ghost var tab := Tab()[ino := inode];
      M.SetSize(tab, blocks[..], Bits(Lsb, ibits[..]), Bits(Lsb, dbits[..]), g, dirs, ino, size);
      hide M.Files;
      ghost var F, F1, bytes := FilesIn(tab), M.Files(tab[ino := inode.(size := size)], blocks[..], g.lay, dirs), M.FileBytes(blocks[..], g.lay[ino], size);
      assert tab[ino := inode.(size := size)] == Tab()[ino := inode.(size := size)];
      WriteI(ino, inode.(size := size));
      OneFile(F, F0, ino, bytes);
    }

    // The write stops half-way: the inode on disk stays as it was.
    ghost method Abandon(ino: int, inode: M.Inode, F0: map<int, seq<bv8>>, g0: M.Layout)
      requires Loaded(ino, inode) && Kept(g0, g, ino)
      requires M.InodeOk(Tab()[ino], ino, false, g0.lay[ino]) && M.LayOk(g0.lay[ino], false)
      requires FilesIn(Tab()[ino := inode]) - {ino} == F0 - {ino}
      modifies `g
      ensures Sound() && Files() == F0[ino := M.FileBytes(blocks[..], old(g.lay)[ino], Tab()[ino].size)]
      ensures g.lay.Keys == old(g.lay.Keys) && Stopped(g0, g, ino, |old(g.lay)[ino].blocks|)
    {
      hide M.Good, Bits, M.FileBytes, M.InodeOk, M.LayOk, OwnRest;
      ghost var l, l0 := g.lay[ino], g0.lay[ino];
      M.Unflush(Tab(), blocks[..], Bits(Lsb, ibits[..]), Bits(Lsb, dbits[..]), g, dirs, ino, inode, l0);
      hide M.Files;
      OneFile(FilesIn(Tab()[ino := inode]), F0, ino, M.FileBytes(blocks[..], l, Tab()[ino].size));
      OwnedOf(Tab()[ino := inode], blocks[..], Bits(Lsb, ibits[..]), Bits(Lsb, dbits[..]), g, dirs);
      CutStops(g0, g, ino);
      var d := M.Elements(l.blocks[M.Shown(l0, |l.blocks|)..]) + M.Elements(l.inds[|l0.inds|..]);
      g := M.Layout(g.lay[ino := M.Cut(l0, l)], g.own - d, g.leaked + d, g.spare);
    }

    // rufs_write, with the buffer advanced and the size the larger of the old one and
    // the end of the write.
    method Write(path: Path, buf: seq<bv8>, offset: nat) returns (r: WriteResult, ghost done: int)
      requires Valid() && path != [] && ProperPath(path) && Walkable(dirs, path)
      requires Resolve(dirs, path).Some? ==> Resolve(dirs, path).value !in dirs
      requires offset + |buf| <= M.MAX_BLOCKS * M.BLOCK_SIZE
      modifies `g, inodes, blocks, dbits
      ensures Valid() && g.lay.Keys == old(g.lay.Keys) && g.spare == old(g.spare)
      ensures r == Missing <==> Resolve(dirs, path).None?
      ensures r == Missing ==> Files() == old(Files()) && g == old(g)
      ensures r != Missing ==> Resolve(dirs, path).value in old(Files())
      ensures r != Missing ==> WriteOutcome(Resolve(dirs, path).value, old(Files()), Files(), old(g), g, offset, buf, done, r)
      ensures r != Missing && done < |buf| && offset <= |old(Files())[Resolve(dirs, path).value]| ==>
                && NoFree(Bits(Lsb, dbits[..]))
                && forall b :: M.InData(b) ==> (b in g.leaked <==> b !in g.own)
      ensures r != Missing && done == |buf| && offset <= |old(Files())[Resolve(dirs, path).value]| ==>
                && r == Count(|buf|)
                && WrittenInto(Resolve(dirs, path).value, old(Files()), Files(), offset, buf)
    {
      hide M.Good, Bits, M.Files, M.FileBytes, TreeOk, Walkable, ProperPath, WriteOutcome, Writing, NoFree, WrittenInto;
      done := 0;
      Lookup(path);
      var found := GetNodeByPath(path);
      if found.None? {
        return Missing, 0;
      }
      var inode := found.value;
      ghost var c := Resolve(dirs, path).value;
      FileFacts(Tab(), blocks[..], Bits(Lsb, ibits[..]), Bits(Lsb, dbits[..]), g, dirs, c);
      FileEntry(Tab(), blocks[..], g.lay, dirs, c);
      ghost var F0, g0, bs0, tab0 := Files(), g, blocks[..], Tab();
      if offset > inode.size {
        NothingWritten(c, F0, g0, offset, buf);
        return Count(0), 0;
      }
      StartWriting(c, inode, offset, buf);
      var n, o, rest := offset / M.BLOCK_SIZE, offset % M.BLOCK_SIZE, buf;
      while |rest| > 0
        invariant 0 <= done <= |buf| && rest == buf[done..] && inode.ino == c
        invariant Writing(c, inode, tab0, F0, g0, bs0, offset, buf, done, n, o)
        decreases |rest|
      {
        var inode', k := WriteTurn(inode.ino, inode, tab0, F0, g0, bs0, offset, buf, done, n, o, rest);
        inode := inode';
        if k == 0 {
          StopWriting(c, inode, tab0, F0, g0, bs0, offset, buf, done, n, o);
          AllTaken(Tab(), blocks[..], Bits(Lsb, ibits[..]), Bits(Lsb, dbits[..]), g, dirs);
          return if n < M.DIRECT then Count(|buf| - |rest|) else Full, done;
        }
        rest := rest[k..];
        done := done + k;
        n := n + 1;
        o := 0;
      }
      FinishWriting(inode, c, tab0, F0, g0, bs0, offset, buf, n, o);
      CompletedBytes(c, F0, Files(), g0, g, offset, buf, Count(|buf|));
      return Count(|buf|), done;
    }

    // ---------- reading ----------

    // rufs_read, with the buffer advanced. The block is always there: the branches for
    // a missing block cannot be taken.
    method Read(path: Path, size: nat, offset: nat) returns (r: Option<seq<bv8>>)
      requires Valid() && path != [] && ProperPath(path) && Walkable(dirs, path)
      requires Resolve(dirs, path).Some? ==> Resolve(dirs, path).value !in dirs
      modifies inodes
      ensures Valid() && Tab() == old(Tab())
      ensures r.Some? <==> Resolve(dirs, path).Some?
      ensures r.Some? ==> Resolve(dirs, path).value in Files()
      ensures r.Some? ==> r.value == Span(Files()[Resolve(dirs, path).value], offset, size)
      ensures r.Some? && offset + size > |Files()[Resolve(dirs, path).value]| ==> r.value == []
      ensures r.Some? && offset + size <= |Files()[Resolve(dirs, path).value]| ==>
                && |r.value| == size
                && forall i :: 0 <= i < size ==> r.value[i] == Files()[Resolve(dirs, path).value][offset + i]
    {
      hide M.Good, Bits, M.Files, M.FileBytes, TreeOk, Walkable, ProperPath;
      Lookup(path);
      var found := GetNodeByPath(path);
      if found.None? {
        return None;
      }
      var inode := found.value;
      ghost var c := Resolve(dirs, path).value;
      FileFacts(Tab(), blocks[..], Bits(Lsb, ibits[..]), Bits(Lsb, dbits[..]), g, dirs, c);
      FileEntry(Tab(), blocks[..], g.lay, dirs, c);
      if offset + size > inode.size {
        return Some([]);
      }
      M.SameUpdate(Tab(), c);
      ghost var f := M.FileBytes(blocks[..], g.lay[c], inode.size);
      var out := ReadLoop(inode, size, offset);
      WriteI(inode.ino, inode);
      return Some(out);
    }

    // The loop of rufs_read over the blocks of the range.
    method ReadLoop(inode: M.Inode, size: nat, offset: nat) returns (out: seq<bv8>)
      requires Loaded(inode.ino, inode) && offset + size <= inode.size
      requires M.InodeOk(inode, inode.ino, false, g.lay[inode.ino]) && M.LayOk(g.lay[inode.ino], false)
      ensures out == M.FileBytes(blocks[..], g.lay[inode.ino], inode.size)[offset..offset + size]
    {
      hide M.Good, Bits, M.Files, M.Byte, M.Slots;
      ghost var l := g.lay[inode.ino];
      out := [];
      var n, o, left := offset / M.BLOCK_SIZE, offset % M.BLOCK_SIZE, size;
      while left > 0
        invariant 0 <= left <= size && |out| == size - left && 0 <= o < M.BLOCK_SIZE && 0 <= n
        invariant left > 0 ==> offset + |out| == M.BLOCK_SIZE * n + o
        invariant forall t :: 0 <= t < |out| ==> out[t] == M.Byte(blocks[..], l, offset + t)
      {
        var b := BlockOf(inode.ino, inode, n);
        DataThere(Tab()[inode.ino := inode], blocks[..], Bits(Lsb, ibits[..]), Bits(Lsb, dbits[..]), g, dirs, inode.ino, n);
        var k := if left <= M.BLOCK_SIZE - o then left else M.BLOCK_SIZE - o;
        ghost var had := out;
        out := out + blocks[b - M.D_START].bytes[o..o + k];
        forall t | |had| <= t < |out| ensures out[t] == M.Byte(blocks[..], l, offset + t) {
          BlockByte(blocks[..], l, n, o + t - |had|);
        }
        left := left - k;
        o := 0;
        n := n + 1;
      }
    }

    // ---------- calls in sequence ----------

    // Reading back what a completed write has written.
    method WriteThenRead(path: Path, buf: seq<bv8>, offset: nat) returns (w: WriteResult, r: Option<seq<bv8>>)
      requires Valid() && path != [] && ProperPath(path) && Walkable(dirs, path)
      requires Resolve(dirs, path).Some? ==> Resolve(dirs, path).value !in dirs
      requires offset + |buf| <= M.MAX_BLOCKS * M.BLOCK_SIZE
      modifies `g, inodes, blocks, dbits
      ensures Valid()
      ensures w == Count(|buf|) ==> r == Some(buf)
    {
      hide M.Good, Bits, M.Files, TreeOk, Walkable, ProperPath, WriteOutcome, Overwrite;
      ghost var done, F0, g0 := 0, Files(), g;
      w, done := Write(path, buf, offset);
      if w != Missing {
        ReadBack(Resolve(dirs, path).value, F0, Files(), g0, g, offset, buf, done, w);
      }
      r := Read(path, |buf|, offset);
    }

    // Any number of successful writes to file c: nothing else changes, and a file that
    // has exactly the blocks its size calls for stays so.
    method WriteAll(path: Path, writes: seq<(seq<bv8>, nat)>, ghost c: int) returns (completed: bool)
      requires Valid() && path != [] && ProperPath(path) && Walkable(dirs, path) &&
        Resolve(dirs, path) == Some(c) && c !in dirs
      requires c in g.lay && c in Files()
      requires forall i :: 0 <= i < |writes| ==> writes[i].1 + |writes[i].0| <= M.MAX_BLOCKS * M.BLOCK_SIZE
      modifies `g, inodes, blocks, dbits
      ensures Valid() && c in Files()
      ensures completed ==> Kept(old(g), g, c) && Files() - {c} == old(Files()) - {c}
      ensures completed ==> (Exact(old(g.lay[c]), old(|Files()[c]|)) ==> Exact(g.lay[c], |Files()[c]|))
    {
      hide M.Good, Bits, M.Files, TreeOk, Walkable, ProperPath, WriteOutcome, Kept, Exact;
      ghost var g1, F1 := g, Files();
      KeptSame(g1, c);
      var i := 0;
      while i < |writes|
        invariant 0 <= i <= |writes| && Valid() && Kept(g1, g, c) && c in g.lay
        invariant c in Files() && Files() - {c} == F1 - {c}
        invariant Exact(g1.lay[c], |F1[c]|) ==> Exact(g.lay[c], |Files()[c]|)
      {
        ghost var g2, F2, done := g, Files(), 0;
        var w;
        w, done := Write(path, writes[i].0, writes[i].1);
        OutcomeHas(c, F2, Files(), g2, g, writes[i].1, writes[i].0, done, w);
        if w != Count(|writes[i].0|) {
          return false;
        }
        Completed(c, F2, Files(), g1, g2, g, writes[i].1, writes[i].0, done);
        i := i + 1;
      }
      return true;
    }

    ghost function Now(): Disk
      requires Shape()
      reads this, inodes, blocks, ibits, dbits
    {
      Disk(Tab(), blocks[..], Bits(Lsb, ibits[..]), Bits(Lsb, dbits[..]), g, dirs)
    }

    // A file that is created, written any number of times with success and unlinked
    // leaves no trace: both bitmaps, all contents and all paths are as before.
    method CreateWriteUnlink(path: Path, writes: seq<(seq<bv8>, nat)>) returns (completed: bool)
      requires Valid() && path != [] && ProperPath(path) && Walkable(dirs, path) && Resolve(dirs, path).None?
      requires forall i :: 0 <= i < |writes| ==> writes[i].1 + |writes[i].0| <= M.MAX_BLOCKS * M.BLOCK_SIZE
      modifies `g, `dirs, inodes, blocks, ibits, dbits
      ensures Valid()
      ensures completed ==> Bits(Lsb, ibits[..]) == old(Bits(Lsb, ibits[..])) && Bits(Lsb, dbits[..]) == old(Bits(Lsb, dbits[..]))
      ensures completed ==> Files() == old(Files()) && forall p :: Resolve(dirs, p) == Resolve(old(dirs), p)
    {
      hide M.Good, Bits, M.Files, TreeOk, Walkable, ProperPath, WriteOutcome, Kept, OnlyAdds, OnlyRemoves, Forgotten;
      ghost var before := Now();
      var r; ghost var c;
      r, c := Create(path);
      if r != Ok {
        return false;
      }
      ghost var g1, dirs1 := g, dirs;
      CreatedWalk(before.dirs, dirs1, path, c);
      var all := WriteAll(path, writes, c);
      if !all {
        return false;
      }
      ghost var written := Now();
      var u := Unlink(path);
      AsBefore(before, written, Now(), c, g1);
      PathsAsBefore(before.dirs, dirs1, dirs, path, c);
      NoFile(before.tab, before.blocks, before.g.lay, before.dirs, c);
      return true;
    }
  }

  lemma TableUpdate(bs: seq<seq<M.Inode>>, ino: int, inode: M.Inode)
    requires |bs| == M.INODE_BLOCKS && forall i :: 0 <= i < |bs| ==> |bs[i]| == M.INODES_PER_BLOCK
    requires 0 <= ino < M.MAX_INUM
    ensures var b := ino / M.INODES_PER_BLOCK;
            Table(bs[b := bs[b][ino % M.INODES_PER_BLOCK := inode]]) == Table(bs)[ino := inode]
  {
  }

  predicate ProperPath(p: Path) {
    forall k :: 0 <= k < |p| ==> M.ProperName(p[k])
  }

  // What a directory's inode and block look like.
  lemma DirFacts(tab: seq<M.Inode>, blks: seq<M.Block>, ibits: seq<bool>, dbits: seq<bool>, g: M.Layout, dirs: Dirs,
          d: int)
    requires M.Good(tab, blks, ibits, dbits, g, dirs) && d in dirs
    ensures d in g.lay && |g.lay[d].blocks| == 1 && 0 <= d < M.MAX_INUM && |tab| == M.MAX_INUM && |blks| == M.MAX_DNUM
    ensures var b := g.lay[d].blocks[0];
            && M.InData(b) && |tab[d].direct| == M.DIRECT && tab[d].direct[0] == b && tab[d].ino == d
            && (forall i :: 1 <= i < M.DIRECT ==> tab[d].direct[i] == -1)
            && M.At(blks, b).Dirents? && M.TableOk(M.At(blks, b).table, dirs[d])
  {
    assert M.NodeOk(tab[d], blks, d, M.KidsOf(dirs, d), g.lay[d]);
  }

  lemma NotListed(table: seq<M.Dirent>, kids: map<Name, int>, name: Name)
    requires M.TableOk(table, kids) && forall k :: 2 <= k < M.DIRENTS ==> table[k].name != name
    ensures name !in kids
  {
    assert name in kids ==> M.Listed(table, name);
  }

  lemma LayInRange(tab: seq<M.Inode>, blks: seq<M.Block>, ibits: seq<bool>, dbits: seq<bool>, g: M.Layout, dirs: Dirs)
    requires M.Good(tab, blks, ibits, dbits, g, dirs)
    ensures forall ino :: ino in g.lay ==> 0 <= ino < M.MAX_INUM
  {
  }

  // One step of the walk: the next component is in the directory reached, or the path
  // has no meaning.
  lemma WalkOn(dirs: Dirs, path: Path, i: nat, current: int)
    requires i < |path| && Resolve(dirs, path[..i]) == Some(current) && Walkable(dirs, path) && ProperPath(path)
    ensures current in dirs && M.ProperName(path[i])
    ensures path[i] in dirs[current] ==> Resolve(dirs, path[..i + 1]) == Some(dirs[current][path[i]])
    ensures path[i] !in dirs[current] ==> Resolve(dirs, path) == None
  {
    hide Resolve;
    assert path[..i + 1] == path[..i] + [path[i]];
    ResolveStep(dirs, path[..i], path[i]);
    if path[i] !in dirs[current] {
      ResolvePrefix(dirs, path, i + 1);
    }
  }

  // A path has no meaning beyond a prefix that has none.
  lemma {:induction false} ResolvePrefix(dirs: Dirs, p: Path, k: nat)
    requires k <= |p| && Resolve(dirs, p[..k]) == None
    ensures Resolve(dirs, p) == None
    decreases |p|
  {
    if k == |p| {
      assert p[..k] == p;
    } else {
      assert p[..|p| - 1][..k] == p[..k];
      ResolvePrefix(dirs, p[..|p| - 1], k);
    }
  }

  lemma TableSize(table: seq<M.Dirent>, kids: map<Name, int>)
    requires M.TableOk(table, kids)
    ensures |table| == M.DIRENTS
  {
  }

  lemma TableFind(table: seq<M.Dirent>, kids: map<Name, int>, name: Name) returns (i: int)
    requires M.TableOk(table, kids) && name in kids
    ensures 2 <= i < M.DIRENTS == |table| && table[i].valid && table[i].name == name
  {
    assert M.Listed(table, name);
    i :| 2 <= i < |table| && table[i].valid && table[i].name == name;
  }

  // The names in the slots below n.
  ghost function Names(table: seq<M.Dirent>, n: int): set<Name>
    requires n <= |table|
  {
    set i | 2 <= i < n && table[i].valid :: table[i].name
  }

  lemma {:induction false} NamesCount(table: seq<M.Dirent>, kids: map<Name, int>, n: nat)
    requires M.TableOk(table, kids) && 2 <= n <= M.DIRENTS
    ensures |table| == M.DIRENTS && |Names(table, n)| <= n - 2
    ensures |Names(table, n)| == n - 2 <==> forall i :: 2 <= i < n ==> table[i].valid
  {
    if n == 2 {
      assert Names(table, n) == {};
    } else {
      NamesCount(table, kids, n - 1);
      NamesDiffer(table, kids, n - 1);
      NamesStep(table, n - 1);
      hide Names, M.TableOk;
    }
  }

  lemma NamesDiffer(table: seq<M.Dirent>, kids: map<Name, int>, k: nat)
    requires M.TableOk(table, kids) && 2 <= k < M.DIRENTS
    ensures |table| == M.DIRENTS
    ensures table[k].valid ==> forall i :: 2 <= i < k && table[i].valid ==> table[i].name != table[k].name
  {
  }

  lemma NamesStep(table: seq<M.Dirent>, k: nat)
    requires 2 <= k < |table|
    requires table[k].valid ==> forall i :: 2 <= i < k && table[i].valid ==> table[i].name != table[k].name
    ensures |Names(table, k + 1)| == |Names(table, k)| + if table[k].valid then 1 else 0
  {
    if table[k].valid {
      assert Names(table, k + 1) == Names(table, k) + {table[k].name};
    } else {
      assert Names(table, k + 1) == Names(table, k);
    }
  }

  // A table has an invalid slot exactly while the directory holds fewer than 17 names.
  lemma TableRoom(table: seq<M.Dirent>, kids: map<Name, int>)
    requires M.TableOk(table, kids)
    ensures |table| == M.DIRENTS
    ensures (forall i :: 0 <= i < M.DIRENTS ==> table[i].valid) <==> |kids| >= SLOTS
  {
    NamesCount(table, kids, M.DIRENTS);
    forall n ensures n in kids <==> n in Names(table, M.DIRENTS) {
      if n in kids {
        var i := TableFind(table, kids, n);
      }
      if n in Names(table, M.DIRENTS) {
        var i :| 2 <= i < M.DIRENTS && table[i].valid && table[i].name == n;
        assert M.EntryOk(table[i], kids);
      }
    }
    assert kids.Keys == Names(table, M.DIRENTS);
  }

  lemma TableAdd(table: seq<M.Dirent>, kids: map<Name, int>, i: int, name: Name, ino: int, len: int)
    requires M.TableOk(table, kids) && 0 <= i < M.DIRENTS && !table[i].valid && name !in kids && M.ProperName(name)
    ensures i >= 2 && M.TableOk(table[i := M.Dirent(ino, true, name, len)], kids[name := ino])
  {
    var t := table[i := M.Dirent(ino, true, name, len)];
    forall k | 2 <= k < M.DIRENTS ensures M.EntryOk(t[k], kids[name := ino]) {
      assert M.EntryOk(table[k], kids);
    }
    forall n | n in kids[name := ino] ensures M.Listed(t, n) {
      if n == name {
        assert t[i].valid && t[i].name == n;
      } else {
        var k := TableFind(table, kids, n);
        assert t[k].valid && t[k].name == n;
      }
    }
    forall k | 2 <= k < M.DIRENTS && k != i && t[k].valid ensures t[k].name != name {
      assert M.EntryOk(table[k], kids);
    }
  }

  lemma TableRemove(table: seq<M.Dirent>, kids: map<Name, int>, i: int, name: Name)
    requires M.TableOk(table, kids) && 0 <= i < M.DIRENTS && table[i].name == name && M.ProperName(name)
    ensures i >= 2 && M.TableOk(table[i := M.Dirent(0, false, "", 0)], kids - {name})
  {
    var t := table[i := M.Dirent(0, false, "", 0)];
    assert i >= 2 && M.EntryOk(table[i], kids);
    forall k | 2 <= k < M.DIRENTS ensures M.EntryOk(t[k], kids - {name}) {
      assert M.EntryOk(table[k], kids);
    }
    forall n | n in kids - {name} ensures M.Listed(t, n) {
      var k := TableFind(table, kids, n);
      assert t[k].valid && t[k].name == n;
    }
  }

  method NewInodeBlocks() returns (a: array<seq<M.Inode>>)
    ensures fresh(a) && a.Length == M.INODE_BLOCKS && forall i :: 0 <= i < a.Length ==> |a[i]| == M.INODES_PER_BLOCK
  {
    a := new seq<M.Inode>[M.INODE_BLOCKS](_ => BlankInodes());
  }

  method NewDataBlocks() returns (a: array<M.Block>)
    ensures fresh(a) && a.Length == M.MAX_DNUM && forall i :: 0 <= i < a.Length ==> a[i].Raw? && |a[i].bytes| == M.BLOCK_SIZE
  {
    a := new M.Block[M.MAX_DNUM](_ => BlankBlock());
  }

  function BlankInodes(): (r: seq<M.Inode>)
    ensures |r| == M.INODES_PER_BLOCK
  {
    seq(M.INODES_PER_BLOCK, _ => M.Inode(0, 0, 0, 0, 0, M.NoDirect(), seq(M.INDIRECT, _ => 0)))
  }

  function BlankBlock(): (r: M.Block)
    ensures r.Raw? && |r.bytes| == M.BLOCK_SIZE
  {
    M.Raw(seq(M.BLOCK_SIZE, _ => 0))
  }

  ghost predicate AllFree(bits: seq<bool>) {
    forall i :: 0 <= i < |bits| ==> !bits[i]
  }

  lemma RootTree(dirs: Dirs, lay: set<int>)
    requires lay == {ROOT} && dirs == map[ROOT := map[]]
    ensures TreeOk(dirs, lay - dirs.Keys)
  {
    assert Resolve(dirs, []) == Some(ROOT);
  }

  lemma BlankDisk(tab: seq<M.Inode>, blks: seq<M.Block>, ib: seq<bv8>, db: seq<bv8>)
    requires |tab| == M.MAX_INUM && |blks| == M.MAX_DNUM && |ib| == M.MAX_INUM / 8 && |db| == M.MAX_DNUM / 8
    requires forall i :: 0 <= i < |blks| ==> blks[i].Raw? && |blks[i].bytes| == M.BLOCK_SIZE
    requires (forall i :: 0 <= i < |ib| ==> ib[i] == 0) && (forall i :: 0 <= i < |db| ==> db[i] == 0)
    ensures AllFree(Bits(Lsb, ib)) && AllFree(Bits(Lsb, db))
    ensures M.Good(tab, blks, Bits(Lsb, ib), Bits(Lsb, db), M.Layout(map[], map[], {}, {}), map[])
    ensures M.Files(tab, blks, map[], map[]) == map[]
  {
  }

  ghost predicate NoFree(bits: seq<bool>) {
    forall i :: 0 <= i < |bits| ==> bits[i]
  }

  lemma BitSizes(ib: seq<bv8>, db: seq<bv8>)
    ensures |Bits(Lsb, ib)| == 8 * |ib| && |Bits(Lsb, db)| == 8 * |db|
  {
  }

  // The inode c of a new directory with block b, everything else as before.
  ghost predicate NewDirLayout(g: M.Layout, g': M.Layout, c: int, b: int) {
    g' == M.Layout(g.lay[c := M.Lay([b], [])], g.own[b := M.Data(c, 0)], g.leaked, g.spare)
  }

  // What a failed call leaves behind. One that found its parent takes the first free
  // inode, if there is one, and then, if it needs one, the first free block.
  ghost predicate LeftMarked(g: M.Layout, g': M.Layout, ib: seq<bool>, ib': seq<bool>, db: seq<bool>, db': seq<bool>,
                             found: bool, needsBlock: bool)
  {
    var tookInode := found && !NoFree(ib);
    var tookBlock := tookInode && needsBlock && !NoFree(db);
    && g' == g.(spare := if tookInode then g.spare + {FirstClear(ib)} else g.spare,
                leaked := if tookBlock then g.leaked + {M.D_START + FirstClear(db)} else g.leaked)
    && ib' == (if tookInode && FirstClear(ib) < |ib| then ib[FirstClear(ib) := true] else ib)
    && db' == (if tookBlock && FirstClear(db) < |db| then db[FirstClear(db) := true] else db)
  }

  // Every proper prefix that has a meaning is a directory, as the kernel guarantees.
  ghost predicate Walkable(dirs: Dirs, path: Path) {
    forall k :: 0 <= k < |path| && Resolve(dirs, path[..k]).Some? ==> Resolve(dirs, path[..k]).value in dirs
  }

  ghost function MakeOutcome(dirs: Dirs, path: Path, full: bool): Status
    requires path != []
  {
    match Resolve(dirs, path[..|path| - 1])
    case None => NoEntry
    case Some(d) =>
      if full then NoSpace
      else if d in dirs && path[|path| - 1] in dirs[d] then Exists
      else if d in dirs && |dirs[d]| >= SLOTS then NoSpace
      else Ok
  }

  // Each outcome told by itself.
  lemma OutcomeCases(dirs: Dirs, path: Path, full: bool)
    requires path != [] && Walkable(dirs, path)
    ensures var r, parent := MakeOutcome(dirs, path, full), Resolve(dirs, path[..|path| - 1]);
            && (r == NoEntry <==> parent.None?)
            && (r == Exists <==>
                  parent.Some? && !full && parent.value in dirs && path[|path| - 1] in dirs[parent.value])
            && (r == NoSpace <==>
                  && parent.Some?
                  && (full || (parent.value in dirs && path[|path| - 1] !in dirs[parent.value]
                               && |dirs[parent.value]| >= SLOTS)))
            && (r == Ok <==>
                  && parent.Some? && !full && parent.value in dirs && path[|path| - 1] !in dirs[parent.value]
                  && |dirs[parent.value]| < SLOTS)
  {
  }

  // The parent of a walkable path can be looked up.
  lemma ParentWalk(dirs: Dirs, lay: set<int>, path: Path)
    requires path != [] && ProperPath(path) && Walkable(dirs, path) && TreeOk(dirs, lay - dirs.Keys) && dirs.Keys <= lay
    ensures var at := path[..|path| - 1];
            && ROOT in dirs && ProperPath(at) && Walkable(dirs, at)
            && (Resolve(dirs, at).Some? ==> Resolve(dirs, at).value in dirs && Resolve(dirs, at).value in lay)
  {
    var at := path[..|path| - 1];
    forall k | 0 <= k < |at| ensures at[..k] == path[..k] {
    }
    assert at == path[..|path| - 1];
  }

  lemma DirsStored(tab: seq<M.Inode>, blks: seq<M.Block>, ibits: seq<bool>, dbits: seq<bool>, g: M.Layout, dirs: Dirs)
    requires M.Good(tab, blks, ibits, dbits, g, dirs)
    ensures dirs.Keys <= g.lay.Keys
    ensures forall ino :: ino in g.spare ==> ino !in g.lay
    ensures forall ino :: ino in g.lay ==> 0 <= ino < |tab| == M.MAX_INUM && tab[ino].ino == ino
  {
  }

  lemma NoFreeMeans(ib: seq<bv8>, db: seq<bv8>)
    requires |ib| == M.MAX_INUM / 8 && |db| == M.MAX_DNUM / 8
    ensures NoFree(Bits(Lsb, ib)) <==> forall i :: 0 <= i < M.MAX_INUM ==> Bits(Lsb, ib)[i]
    ensures NoFree(Bits(Lsb, db)) <==> forall i :: 0 <= i < M.MAX_DNUM ==> Bits(Lsb, db)[i]
  {
  }

  // is_directory_empty.
  method IsDirectoryEmpty(table: seq<M.Dirent>, ghost kids: map<Name, int>) returns (empty: bool)
    requires M.TableOk(table, kids)
    ensures empty <==> kids == map[]
  {
    TableSize(table, kids);
    var i := 2;
    while i < M.DIRENTS
      invariant 2 <= i <= M.DIRENTS
      invariant forall k :: 2 <= k < i ==> !table[k].valid
    {
      if table[i].valid {
        assert M.EntryOk(table[i], kids);
        return false;
      }
      i := i + 1;
    }
    assert forall n :: !M.Listed(table, n);
    return true;
  }

  lemma GivenUp(tab: seq<M.Inode>, blks: seq<M.Block>, ibits: seq<bool>, dbits: seq<bool>, g: M.Layout, dirs: Dirs,
          c: int)
    requires M.Good(tab, blks, ibits, dbits, g, dirs) && c in g.lay
    ensures var l := g.lay[c];
            var g' := M.Layout(g.lay - {c}, g.own - M.Pieces(l), g.leaked + M.Pieces(l), g.spare + {c});
            && c !in g.spare && M.Good(tab, blks, ibits, dbits, g', dirs - {c})
            && M.Files(tab, blks, g'.lay, dirs - {c}) == M.Files(tab, blks, g.lay, dirs) - {c}
            && Apart(l, g.leaked) && M.PtrsOk(blks, l)
            && (c in dirs ==> |l.blocks| == 1 && l.inds == [])
  {
    M.Release(tab, blks, ibits, dbits, g, dirs, c);
    M.OwnDistinct(g.lay, g.own, c);
    assert M.NodeOk(tab[c], blks, c, M.KidsOf(dirs, c), g.lay[c]);
    NotLeaked(dbits, g.own, g.leaked, g.lay[c]);
    hide M.InodesMarked, M.FreeRaw, M.Files;
  }

  lemma NotLeaked(dbits: seq<bool>, own: map<int, M.Role>, leaked: set<int>, l: M.Lay)
    requires M.BlocksMarked(dbits, own, leaked)
    requires (forall i :: 0 <= i < |l.blocks| ==> l.blocks[i] in own) && (forall k :: 0 <= k < |l.inds| ==> l.inds[k] in own)
    ensures (forall i :: 0 <= i < |l.blocks| ==> l.blocks[i] !in leaked) && (forall k :: 0 <= k < |l.inds| ==> l.inds[k] !in leaked)
  {
    forall b | b in own ensures b !in leaked {
    }
  }

  // What the inode of any file or directory in use looks like.
  lemma FileFacts(tab: seq<M.Inode>, blks: seq<M.Block>, ibits: seq<bool>, dbits: seq<bool>, g: M.Layout, dirs: Dirs,
          c: int)
    requires M.Good(tab, blks, ibits, dbits, g, dirs) && c in g.lay
    ensures |tab| == M.MAX_INUM && 0 <= c < M.MAX_INUM
    ensures M.InodeOk(tab[c], c, c in dirs, g.lay[c]) && M.LayOk(g.lay[c], c in dirs)
    ensures forall i :: 0 <= i < |g.lay[c].blocks| ==> g.lay[c].blocks[i] != -1
    ensures forall k :: 0 <= k < |g.lay[c].inds| ==> g.lay[c].inds[k] != -1
  {
    M.OwnDistinct(g.lay, g.own, c);
    assert M.NodeOk(tab[c], blks, c, M.KidsOf(dirs, c), g.lay[c]);
    hide M.Slots;
  }

  // Inode c and all its blocks are free again, and nothing else has changed hands.
  ghost predicate Forgotten(g: M.Layout, g': M.Layout, c: int) {
    c in g.lay && g' == M.Layout(g.lay - {c}, g.own - M.Pieces(g.lay[c]), g.leaked, g.spare)
  }

  // Exactly the path has lost its meaning.
  ghost predicate OnlyRemoves(dirs: Dirs, dirs': Dirs, path: Path) {
    forall p :: Resolve(dirs', p) == if p == path then None else Resolve(dirs, p)
  }

  lemma ParentOfLeaf(dirs: Dirs, lay: set<int>, path: Path, c: int) returns (d: int)
    requires path != [] && ProperPath(path) && Walkable(dirs, path) && Resolve(dirs, path) == Some(c)
    requires TreeOk(dirs, lay - dirs.Keys) && dirs.Keys <= lay
    ensures var at, name, dirs' := path[..|path| - 1], path[|path| - 1], dirs - {c};
            && Resolve(dirs, at) == Some(d) && Resolve(dirs', at) == Some(d) && d in dirs && d != c
            && name in dirs[d] && dirs[d][name] == c
            && ROOT in dirs' && ProperPath(at) && Walkable(dirs', at) && M.ProperName(name)
  {
    hide TreeOk, Resolve, Walkable, ProperPath;
    var at, name := path[..|path| - 1], path[|path| - 1];
    d := LastStep(dirs, path, c);
    RootStays(dirs, lay - dirs.Keys, path, c);
    AvoidsChild(dirs, lay - dirs.Keys, path, c, |at|);
    assert at[..|at|] == at;
    ProperParts(path);
    WalkWithout(dirs, lay - dirs.Keys, path, c);
  }

  lemma LastStep(dirs: Dirs, path: Path, c: int) returns (d: int)
    requires path != [] && Resolve(dirs, path) == Some(c)
    ensures Resolve(dirs, path[..|path| - 1]) == Some(d) && d in dirs
    ensures path[|path| - 1] in dirs[d] && dirs[d][path[|path| - 1]] == c
  {
    d := Resolve(dirs, path[..|path| - 1]).value;
  }

  lemma RootStays(dirs: Dirs, files: set<int>, path: Path, c: int)
    requires TreeOk(dirs, files) && path != [] && Resolve(dirs, path) == Some(c)
    ensures ROOT in dirs - {c}
  {
    ChildrenNotRoot(dirs, files);
    NotRootPath(dirs, path);
  }

  lemma AvoidsChild(dirs: Dirs, files: set<int>, path: Path, c: int, k: nat)
    requires TreeOk(dirs, files) && path != [] && Resolve(dirs, path) == Some(c) && k < |path|
    ensures var at := path[..|path| - 1];
            Resolve(dirs, at[..k]) != Some(c) && Resolve(dirs - {c}, at[..k]) == Resolve(dirs, at[..k])
    ensures path[..|path| - 1][..k] == path[..k]
  {
    hide TreeOk, Resolve;
    var at, name := path[..|path| - 1], path[|path| - 1];
    assert path == at + [name];
    ParentAvoidsChild(dirs, files, at, name, c, k);
    ResolveWithout(dirs, files, at, name, c, k);
  }

  lemma ProperParts(path: Path)
    requires path != [] && ProperPath(path)
    ensures ProperPath(path[..|path| - 1]) && M.ProperName(path[|path| - 1])
  {
  }

  lemma WalkWithout(dirs: Dirs, files: set<int>, path: Path, c: int)
    requires TreeOk(dirs, files) && path != [] && Resolve(dirs, path) == Some(c) && Walkable(dirs, path)
    ensures Walkable(dirs - {c}, path[..|path| - 1])
  {
    hide TreeOk, Resolve;
    var at := path[..|path| - 1];
    forall k | 0 <= k < |at| && Resolve(dirs - {c}, at[..k]).Some?
      ensures Resolve(dirs - {c}, at[..k]).value in dirs - {c}
    {
      AvoidsChild(dirs, files, path, c, k);
    }
  }

  lemma {:induction false} ResolveWithout(dirs: Dirs, files: set<int>, at: Path, name: Name, c: int, k: nat)
    requires TreeOk(dirs, files) && Resolve(dirs, at + [name]) == Some(c) && k <= |at|
    ensures Resolve(dirs - {c}, at[..k]) == Resolve(dirs, at[..k])
  {
    hide TreeOk;
    if k == 0 {
    } else {
      ResolveWithout(dirs, files, at, name, c, k - 1);
      ParentAvoidsChild(dirs, files, at, name, c, k - 1);
      assert at[..k] == at[..k - 1] + [at[k - 1]];
      ResolveStep(dirs, at[..k - 1], at[k - 1]);
      ResolveStep(dirs - {c}, at[..k - 1], at[k - 1]);
      hide Resolve;
    }
  }

  lemma LeafGone(dirs: Dirs, lay: set<int>, path: Path, d: int, c: int)
    requires path != [] && TreeOk(dirs, lay - dirs.Keys) && dirs.Keys <= lay && Leaf(dirs, c) && d in dirs && d != c
    requires Resolve(dirs, path[..|path| - 1]) == Some(d) && path[|path| - 1] in dirs[d] &&
      dirs[d][path[|path| - 1]] == c
    ensures d in dirs - {c}
    ensures var dirs' := WithoutEntry(dirs - {c}, d, path[|path| - 1]);
            TreeOk(dirs', lay - {c} - dirs'.Keys) && OnlyRemoves(dirs, dirs', path)
  {
    var at, n, files := path[..|path| - 1], path[|path| - 1], lay - dirs.Keys;
    assert path == at + [n];
    var dirs' := WithoutEntry(dirs - {c}, d, n);
    RemoveKeepsTree(dirs, files, at, d, n);
    SameRemoval(dirs, d, n, c);
    hide TreeOk, WithoutLeaf, Resolve, Leaf;
    forall p ensures Resolve(dirs', p) == if p == path then None else Resolve(dirs, p) {
      RemovedPath(dirs, files, at, d, n, p);
    }
    assert lay - {c} - dirs'.Keys == files - {c};
  }

  lemma SameRemoval(dirs: Dirs, d: int, n: Name, c: int)
    requires d in dirs && d != c
    ensures WithoutEntry(dirs - {c}, d, n) == WithoutLeaf(dirs, d, n, c)
  {
  }

  // The blocks of a file are all different and none is in base.
  ghost predicate Apart(l: M.Lay, base: set<int>) {
    && (forall i, j :: 0 <= i < j < |l.inds| ==> l.inds[i] != l.inds[j])
    && (forall i, j :: 0 <= i < j < |l.blocks| ==> l.blocks[i] != l.blocks[j])
    && (forall i, k :: 0 <= i < |l.blocks| && 0 <= k < |l.inds| ==> l.blocks[i] != l.inds[k])
    && (forall i :: 0 <= i < |l.blocks| ==> l.blocks[i] !in base)
    && (forall k :: 0 <= k < |l.inds| ==> l.inds[k] !in base)
  }

  // The number of blocks reached through the direct pointers and k indirect blocks.
  function Upto(l: M.Lay, k: int): int {
    if |l.blocks| <= M.DIRECT + M.CAP * k then |l.blocks| else M.DIRECT + M.CAP * k
  }

  lemma UptoNext(l: M.Lay, k: int, j: int)
    requires M.DIRECT + M.CAP * k + j <= |l.blocks| && 0 <= j <= M.CAP
    ensures Upto(l, k) == M.DIRECT + M.CAP * k
    ensures j == M.CAP || M.DIRECT + M.CAP * k + j == |l.blocks| ==> Upto(l, k + 1) == M.DIRECT + M.CAP * k + j
  {
  }

  // Entry j of indirect block k.
  lemma Entry(blks: seq<M.Block>, l: M.Lay, k: int, j: int)
    requires 0 <= k < |l.inds| && M.IndOk(blks, l, k) && forall i :: 0 <= i < |l.blocks| ==> l.blocks[i] != -1
    requires 0 <= j <= M.CAP
    ensures |blks| == M.MAX_DNUM && M.InData(l.inds[k]) && M.At(blks, l.inds[k]).Ptrs?
    ensures var ptrs, i := M.At(blks, l.inds[k]).ptrs, M.DIRECT + M.CAP * k + j;
            |ptrs| == M.CAP && (j < M.CAP ==> ptrs[j] == if i < |l.blocks| then l.blocks[i] else -1)
    ensures j < M.CAP ==> (M.At(blks, l.inds[k]).ptrs[j] != -1 <==> M.DIRECT + M.CAP * k + j < |l.blocks|)
  {
  }

  lemma IndirectUsed(inode: M.Inode, l: M.Lay, k: int)
    requires M.Slots(inode.indirect, l.inds, 0, M.INDIRECT) && M.LayOk(l, false) && 0 <= k <= |l.inds|
    requires forall k :: 0 <= k < |l.inds| ==> l.inds[k] != -1
    ensures |inode.indirect| == M.INDIRECT && |l.inds| <= M.INDIRECT
    ensures k < M.INDIRECT && inode.indirect[k] != -1 <==> k < |l.inds|
    ensures k < |l.inds| ==> inode.indirect[k] == l.inds[k] && M.DIRECT + M.CAP * k <= |l.blocks|
    ensures k == |l.inds| ==> Upto(l, k) == |l.blocks|
  {
  }

  lemma NextPieces(l: M.Lay, base: set<int>, f: int, k: int)
    requires Apart(l, base) && 0 <= f <= |l.blocks| && 0 <= k <= |l.inds|
    ensures f < |l.blocks| ==>
              base + M.Elements(l.blocks[f..]) + M.Elements(l.inds[k..]) - {l.blocks[f]} ==
              base + M.Elements(l.blocks[f + 1..]) + M.Elements(l.inds[k..])
    ensures k < |l.inds| ==>
              base + M.Elements(l.blocks[f..]) + M.Elements(l.inds[k..]) - {l.inds[k]} ==
              base + M.Elements(l.blocks[f..]) + M.Elements(l.inds[k + 1..])
    ensures f < |l.blocks| ==> l.blocks[f] in M.Elements(l.blocks[f..])
    ensures k < |l.inds| ==> l.inds[k] in M.Elements(l.inds[k..])
  {
    if f < |l.blocks| {
      assert l.blocks[f..] == [l.blocks[f]] + l.blocks[f + 1..];
    }
    if k < |l.inds| {
      assert l.inds[k..] == [l.inds[k]] + l.inds[k + 1..];
    }
  }

  // Exactly the path is new, and it means the inode c.
  ghost predicate OnlyAdds(dirs: Dirs, dirs': Dirs, path: Path, c: int) {
    forall p :: Resolve(dirs', p) == if p == path then Some(c) else Resolve(dirs, p)
  }

  lemma Made(dirs: Dirs, lay: set<int>, path: Path, d: int, c: int, isDir: bool, dirs': Dirs, lay': set<int>)
    requires path != [] && TreeOk(dirs, lay - dirs.Keys) && dirs.Keys <= lay && d in dirs &&
      path[|path| - 1] !in dirs[d]
    requires Resolve(dirs, path[..|path| - 1]) == Some(d) && c !in lay && lay' == lay + {c}
    requires dirs' == if isDir then WithEntry(dirs, d, path[|path| - 1], c)[c := map[]] else WithEntry(dirs, d, path[|path| - 1], c)
    ensures TreeOk(dirs', lay' - dirs'.Keys) && OnlyAdds(dirs, dirs', path, c)
  {
    var at, n, files := path[..|path| - 1], path[|path| - 1], lay - dirs.Keys;
    assert ROOT in lay && path == at + [n];
    AddKeepsTree(dirs, files, at, d, n, c, isDir);
    forall p ensures Resolve(dirs', p) == if p == path then Some(c) else Resolve(dirs, p) {
      AddedPath(dirs, files, at, d, n, c, isDir, p);
    }
    assert lay' - dirs'.Keys == if isDir then files else files + {c};
    hide TreeOk;
  }

  // ---------- growing a file ----------

  // What the pointers on the way to file block n are.
  lemma PointerFacts(tab: seq<M.Inode>, blks: seq<M.Block>, ibits: seq<bool>, dbits: seq<bool>, g: M.Layout,
          dirs: Dirs, ino: int, n: int)
    requires M.Good(tab, blks, ibits, dbits, g, dirs) && ino in g.lay && ino !in dirs && 0 <= n < M.MAX_BLOCKS
    ensures |tab| == M.MAX_INUM && 0 <= ino < M.MAX_INUM && |blks| == M.MAX_DNUM
    ensures |tab[ino].direct| == M.DIRECT && |tab[ino].indirect| == M.INDIRECT
    ensures var l, inode := g.lay[ino], tab[ino];
            && (n < M.DIRECT ==> inode.direct[n] == if n < |l.blocks| then l.blocks[n] else -1)
            && (n >= M.DIRECT ==>
                  && 0 <= M.IndOf(n) < M.INDIRECT && 0 <= M.IndexIn(n) < M.CAP
                  && inode.indirect[M.IndOf(n)] == (if M.IndOf(n) < |l.inds| then l.inds[M.IndOf(n)] else -1)
                  && (n < |l.blocks| ==> M.IndOf(n) < |l.inds|)
                  && (M.IndOf(n) < |l.inds| ==>
                        && l.inds[M.IndOf(n)] != -1 && M.InData(l.inds[M.IndOf(n)])
                        && M.At(blks, l.inds[M.IndOf(n)]).Ptrs? && |M.At(blks, l.inds[M.IndOf(n)]).ptrs| == M.CAP
                        && M.At(blks, l.inds[M.IndOf(n)]).ptrs[M.IndexIn(n)] == if n < |l.blocks| then l.blocks[n] else -1))
  {
    var l := g.lay[ino];
    assert M.NodeOk(tab[ino], blks, ino, None, l);
    if n >= M.DIRECT && M.IndOf(n) < |l.inds| {
      assert M.IndOk(blks, l, M.IndOf(n));
    }
  }

  // The owners other than ino.
  ghost function OwnRest(own: map<int, M.Role>, ino: int): map<int, M.Role> {
    map b | b in own && own[b].ino != ino :: own[b]
  }

  // Only the blocks of ino have changed hands.
  ghost predicate Kept(g: M.Layout, g': M.Layout, ino: int) {
    && ino in g.lay && ino in g'.lay && g'.lay[ino := g.lay[ino]] == g.lay
    && M.Extends(g.lay[ino], g'.lay[ino])
    && OwnRest(g'.own, ino) == OwnRest(g.own, ino)
    && g'.leaked == g.leaked && g'.spare == g.spare
  }

  lemma KeptSame(g: M.Layout, ino: int)
    requires ino in g.lay
    ensures Kept(g, g, ino)
  {
  }

  lemma KeptTwice(g: M.Layout, g1: M.Layout, g2: M.Layout, ino: int)
    requires Kept(g, g1, ino) && Kept(g1, g2, ino)
    ensures Kept(g, g2, ino)
  {
    assert g2.lay[ino := g.lay[ino]] == g2.lay[ino := g1.lay[ino]][ino := g.lay[ino]];
    var n, m := |g.lay[ino].blocks|, |g.lay[ino].inds|;
    assert g2.lay[ino].blocks[..n] == g1.lay[ino].blocks[..n];
    assert g2.lay[ino].inds[..m] == g1.lay[ino].inds[..m];
  }

  lemma KeptBlock(g: M.Layout, g': M.Layout, ino: int, b: int)
    requires ino in g.lay && b !in g.own && b !in g.leaked
    requires g' == M.Layout(g.lay[ino := M.Lay(g.lay[ino].blocks + [b], g.lay[ino].inds)], g.own[b := M.Data(ino, |g.lay[ino].blocks|)], g.leaked + {b} - {b}, g.spare)
    ensures Kept(g, g', ino)
  {
    assert g'.lay[ino := g.lay[ino]] == g.lay && g'.leaked == g.leaked;
    assert OwnRest(g'.own, ino) == OwnRest(g.own, ino);
  }

  lemma KeptIndirect(g: M.Layout, g': M.Layout, ino: int, b: int)
    requires ino in g.lay && b !in g.own && b !in g.leaked
    requires g' == M.Layout(g.lay[ino := M.Lay(g.lay[ino].blocks, g.lay[ino].inds + [b])], g.own[b := M.Ind(ino, |g.lay[ino].inds|)], g.leaked + {b} - {b}, g.spare)
    ensures Kept(g, g', ino)
  {
    assert g'.lay[ino := g.lay[ino]] == g.lay && g'.leaked == g.leaked;
    assert OwnRest(g'.own, ino) == OwnRest(g.own, ino);
  }

  // The bytes in the blocks of l are still there in the blocks of l'.
  ghost predicate SameBytes(blks: seq<M.Block>, l: M.Lay, blks': seq<M.Block>, l': M.Lay) {
    forall x :: 0 <= x < M.BLOCK_SIZE * |l.blocks| ==> M.Byte(blks', l', x) == M.Byte(blks, l, x)
  }

  // Blocks in use have positive numbers.
  lemma NoPointerIsNone(tab: seq<M.Inode>, blks: seq<M.Block>, ibits: seq<bool>, dbits: seq<bool>, g: M.Layout,
          dirs: Dirs, ino: int)
    requires M.Good(tab, blks, ibits, dbits, g, dirs) && ino in g.lay
    ensures forall i :: 0 <= i < |g.lay[ino].blocks| ==> g.lay[ino].blocks[i] > 0
    ensures 0 <= ino < |tab| && tab[ino].ino == ino
  {
    DirsStored(tab, blks, ibits, dbits, g, dirs);
    M.OwnDistinct(g.lay, g.own, ino);
  }

  lemma IndsAtEnd(tab: seq<M.Inode>, blks: seq<M.Block>, ibits: seq<bool>, dbits: seq<bool>, g: M.Layout, dirs: Dirs,
          ino: int)
    requires M.Good(tab, blks, ibits, dbits, g, dirs) && ino in g.lay && ino !in dirs
    requires M.DIRECT <= |g.lay[ino].blocks| < M.MAX_BLOCKS
    ensures |g.lay[ino].inds| == M.IndOf(|g.lay[ino].blocks|) || |g.lay[ino].inds| == M.IndOf(|g.lay[ino].blocks|) + 1
  {
    assert M.NodeOk(tab[ino], blks, ino, None, g.lay[ino]);
  }

  lemma DataThere(tab: seq<M.Inode>, blks: seq<M.Block>, ibits: seq<bool>, dbits: seq<bool>, g: M.Layout, dirs: Dirs,
          ino: int, n: int)
    requires M.Good(tab, blks, ibits, dbits, g, dirs) && ino in g.lay && ino !in dirs && 0 <= n < |g.lay[ino].blocks|
    ensures M.RawAt(blks, g.lay[ino].blocks[n])
  {
    assert M.NodeOk(tab[ino], blks, ino, None, g.lay[ino]);
  }

  lemma SameBytesTwice(b0: seq<M.Block>, l0: M.Lay, b1: seq<M.Block>, l1: M.Lay, b2: seq<M.Block>, l2: M.Lay)
    requires SameBytes(b0, l0, b1, l1) && SameBytes(b1, l1, b2, l2) && |l0.blocks| <= |l1.blocks|
    ensures SameBytes(b0, l0, b2, l2)
  {
    hide M.Byte;
  }

  // Bytes o, o + 1, ... of file block n are now those given; all others are as before.
  ghost predicate PutBytes(blks: seq<M.Block>, blks': seq<M.Block>, l: M.Lay, n: int, o: int, bytes: seq<bv8>) {
    forall x :: 0 <= x < M.BLOCK_SIZE * |l.blocks| ==>
      M.Byte(blks', l, x) == if M.BLOCK_SIZE * n + o <= x < M.BLOCK_SIZE * n + o + |bytes| then bytes[x - M.BLOCK_SIZE * n - o] else M.Byte(blks, l, x)
  }

  lemma PutBytesHold(blks: seq<M.Block>, blks': seq<M.Block>, l: M.Lay, n: int, o: int, bytes: seq<bv8>,
          was: seq<bv8>, now: seq<bv8>)
    requires 0 <= n < |l.blocks| && M.RawAt(blks, l.blocks[n]) && 0 <= o && o + |bytes| <= M.BLOCK_SIZE
    requires was == M.At(blks, l.blocks[n]).bytes && now == was[..o] + bytes + was[o + |bytes|..]
    requires forall x :: 0 <= x < M.BLOCK_SIZE * |l.blocks| ==>
               M.Byte(blks', l, x) == if x / M.BLOCK_SIZE == n then now[x % M.BLOCK_SIZE] else M.Byte(blks, l, x)
    ensures PutBytes(blks, blks', l, n, o, bytes)
  {
    forall x | 0 <= x < M.BLOCK_SIZE * |l.blocks|
      ensures M.Byte(blks', l, x) == if M.BLOCK_SIZE * n + o <= x < M.BLOCK_SIZE * n + o + |bytes| then bytes[x - M.BLOCK_SIZE * n - o] else M.Byte(blks, l, x)
    {
      assert x == M.BLOCK_SIZE * (x / M.BLOCK_SIZE) + x % M.BLOCK_SIZE;
    }
  }

  // Where the write loop stands: byte offset + done of the file is byte o of file block
  // n, the file has all blocks before n, and no more blocks than it had or needs.
  ghost predicate Position(l0: M.Lay, l: M.Lay, offset: nat, len: int, done: int, n: int, o: int) {
    && 0 <= o < M.BLOCK_SIZE && 0 <= n
    && offset + done <= M.BLOCK_SIZE * |l.blocks|
    && (done < len ==> offset + done == M.BLOCK_SIZE * n + o && n <= |l.blocks|)
    && |l0.blocks| <= |l.blocks|
    && (|l.blocks| > |l0.blocks| ==> M.BLOCK_SIZE * (|l.blocks| - 1) < offset + done)
  }

  lemma InRange(l0: M.Lay, l: M.Lay, offset: nat, len: int, done: int, n: int, o: int)
    requires Position(l0, l, offset, len, done, n, o) && done < len && offset + len <= M.MAX_BLOCKS * M.BLOCK_SIZE
    ensures 0 <= n < M.MAX_BLOCKS && n <= |l.blocks| && 0 <= o < M.BLOCK_SIZE && offset + done == M.BLOCK_SIZE * n + o
    ensures offset + done <= M.BLOCK_SIZE * |l.blocks| && |l0.blocks| <= |l.blocks|
  {
  }

  lemma PositionStays(l0: M.Lay, l: M.Lay, l': M.Lay, offset: nat, len: int, done: int, n: int, o: int)
    requires Position(l0, l, offset, len, done, n, o) && |l'.blocks| == |l.blocks|
    ensures Position(l0, l', offset, len, done, n, o)
  {
  }

  lemma PositionMoves(l0: M.Lay, l: M.Lay, l': M.Lay, offset: nat, len: int, done: int, n: int, o: int, c: int)
    requires Position(l0, l, offset, len, done, n, o) && done < len
    requires c == if len - done <= M.BLOCK_SIZE - o then len - done else M.BLOCK_SIZE - o
    requires |l'.blocks| == if n < |l.blocks| then |l.blocks| else n + 1
    ensures Position(l0, l', offset, len, done + c, n + 1, 0)
    ensures M.BLOCK_SIZE * n + o + c <= M.BLOCK_SIZE * |l'.blocks|
  {
  }

  // The given part of the buffer is in place, and what the file had elsewhere is
  // untouched.
  ghost predicate Written(bs0: seq<M.Block>, l0: M.Lay, bs: seq<M.Block>, l: M.Lay, offset: nat, part: seq<bv8>) {
    && (forall x :: offset <= x < offset + |part| ==> M.Byte(bs, l, x) == part[x - offset])
    && (forall x :: 0 <= x < M.BLOCK_SIZE * |l0.blocks| && !(offset <= x < offset + |part|) ==> M.Byte(bs, l, x) == M.Byte(bs0, l0, x))
  }

  lemma WrittenStill(bs0: seq<M.Block>, l0: M.Lay, bs: seq<M.Block>, l: M.Lay, bs': seq<M.Block>, l': M.Lay,
          offset: nat, part: seq<bv8>)
    requires Written(bs0, l0, bs, l, offset, part) && SameBytes(bs, l, bs', l')
    requires offset + |part| <= M.BLOCK_SIZE * |l.blocks| && |l0.blocks| <= |l.blocks|
    ensures Written(bs0, l0, bs', l', offset, part)
  {
    hide M.Byte;
  }

  lemma WrittenMore(bs0: seq<M.Block>, l0: M.Lay, bs: seq<M.Block>, bs': seq<M.Block>, l: M.Lay, offset: nat,
          part: seq<bv8>, n: int, o: int, bytes: seq<bv8>)
    requires Written(bs0, l0, bs, l, offset, part) && PutBytes(bs, bs', l, n, o, bytes)
    requires offset + |part| == M.BLOCK_SIZE * n + o && 0 <= n && 0 <= o
    requires M.BLOCK_SIZE * n + o + |bytes| <= M.BLOCK_SIZE * |l.blocks| && |l0.blocks| <= |l.blocks|
    ensures Written(bs0, l0, bs', l, offset, part + bytes)
  {
    hide M.Byte;
  }

  // ---------- what a write means ----------

  function Overwrite(f: seq<bv8>, offset: nat, buf: seq<bv8>): (r: seq<bv8>)
    requires offset <= |f|
    ensures |r| == if offset + |buf| > |f| then offset + |buf| else |f|
  {
    f[..offset] + buf + if offset + |buf| < |f| then f[offset + |buf|..] else []
  }

  // One file has the bytes of the buffer at the offset and its old bytes elsewhere.
  ghost predicate WrittenInto(c: int, F: map<int, seq<bv8>>, F': map<int, seq<bv8>>, offset: nat, buf: seq<bv8>) {
    && c in F && c in F' && F'.Keys == F.Keys && (forall x :: x in F && x != c ==> F'[x] == F[x])
    && offset <= |F[c]| && |F'[c]| == (if offset + |buf| > |F[c]| then offset + |buf| else |F[c]|)
    && (forall i :: 0 <= i < |buf| ==> F'[c][offset + i] == buf[i])
    && forall p :: 0 <= p < |F[c]| && !(offset <= p < offset + |buf|) ==> F'[c][p] == F[c][p]
  }

  lemma CompletedBytes(c: int, F: map<int, seq<bv8>>, F': map<int, seq<bv8>>, g: M.Layout, g': M.Layout, offset: nat,
          buf: seq<bv8>, r: WriteResult)
    requires WriteOutcome(c, F, F', g, g', offset, buf, |buf|, r) && c in F && offset <= |F[c]|
    ensures r == Count(|buf|) && WrittenInto(c, F, F', offset, buf)
  {
    hide Kept, Exact, Stopped;
  }

  // The file has exactly the blocks its size calls for.
  ghost predicate Exact(l: M.Lay, size: int) {
    |l.blocks| == (size + M.BLOCK_SIZE - 1) / M.BLOCK_SIZE
  }

  // They are the least number of blocks with room for the bytes.
  lemma ExactMeans(l: M.Lay, size: int)
    requires 0 <= size
    ensures Exact(l, size) <==> size <= M.BLOCK_SIZE * |l.blocks| < size + M.BLOCK_SIZE
  {
  }

  // A write past the end does nothing. A completed write overwrites or extends the
  // file. One that ran out of blocks leaves the size alone, with the bytes that fit
  // below it in place; what it reports depends on where it stopped.
  ghost predicate WriteOutcome(c: int, F0: map<int, seq<bv8>>, F: map<int, seq<bv8>>, g0: M.Layout, g: M.Layout,
                               offset: nat, buf: seq<bv8>, done: int, r: WriteResult)
  {
    && c in F0
    && var f := F0[c];
    if offset > |f| then r == Count(0) && F == F0 && g == g0
    else if done == |buf| then
      && r == Count(|buf|) && F == F0[c := Overwrite(f, offset, buf)]
      && Kept(g0, g, c) && (Exact(g0.lay[c], |f|) ==> Exact(g.lay[c], |F[c]|))
    else
      && 0 <= done < |buf|
      && r == (if (offset + done) / M.BLOCK_SIZE < M.DIRECT then Count(done) else Full)
      && F == F0[c := Overwrite(f, offset, buf[..done])[..|f|]]
      && Stopped(g0, g, c, (offset + done) / M.BLOCK_SIZE)
  }

  // What a write leaves behind that stopped for want of block n: the file has the blocks
  // its inode on disk shows, and nothing else has changed hands but blocks that are now
  // marked for nothing.
  ghost predicate Stopped(g0: M.Layout, g: M.Layout, c: int, n: int) {
    && c in g0.lay && c in g.lay && g.lay - {c} == g0.lay - {c} && g.spare == g0.spare
    && M.Extends(g0.lay[c], g.lay[c]) && g.lay[c].inds == g0.lay[c].inds
    && |g.lay[c].blocks| == M.Shown(g0.lay[c], n)
    && OwnRest(g.own, c) == OwnRest(g0.own, c) && g0.leaked <= g.leaked
  }

  lemma OwnedOf(tab: seq<M.Inode>, blks: seq<M.Block>, ibits: seq<bool>, dbits: seq<bool>, g: M.Layout, dirs: Dirs)
    requires M.Good(tab, blks, ibits, dbits, g, dirs)
    ensures M.Owned(g.lay, g.own)
  {
  }

  lemma CutStops(g0: M.Layout, g: M.Layout, c: int)
    requires Kept(g0, g, c) && M.Owned(g.lay, g.own)
    requires |g0.lay[c].blocks| <= M.Shown(g0.lay[c], |g.lay[c].blocks|) <= |g.lay[c].blocks|
    ensures var l0, l := g0.lay[c], g.lay[c];
            var d := M.Elements(l.blocks[M.Shown(l0, |l.blocks|)..]) + M.Elements(l.inds[|l0.inds|..]);
            Stopped(g0, M.Layout(g.lay[c := M.Cut(l0, l)], g.own - d, g.leaked + d, g.spare), c, |l.blocks|)
  {
    var l0, l := g0.lay[c], g.lay[c];
    var n := M.Shown(l0, |l.blocks|);
    var d := M.Elements(l.blocks[n..]) + M.Elements(l.inds[|l0.inds|..]);
    KeptKeys(g0, g, c);
    M.OwnDistinct(g.lay, g.own, c);
    assert l.blocks[..n][..|l0.blocks|] == l.blocks[..|l0.blocks|];
    OwnRestWithout(g.own, d, c);
    assert g.lay[c := M.Cut(l0, l)] - {c} == g.lay - {c};
  }

  lemma OwnRestWithout(own: map<int, M.Role>, d: set<int>, c: int)
    requires forall b :: b in d ==> b in own && own[b].ino == c
    ensures OwnRest(own - d, c) == OwnRest(own, c)
  {
    forall b ensures b in OwnRest(own - d, c) <==> b in OwnRest(own, c) {
      assert b in d ==> own[b].ino == c;
    }
  }

  lemma AllTaken(tab: seq<M.Inode>, blks: seq<M.Block>, ibits: seq<bool>, dbits: seq<bool>, g: M.Layout, dirs: Dirs)
    requires M.Good(tab, blks, ibits, dbits, g, dirs) && NoFree(dbits)
    ensures forall b :: M.InData(b) ==> (b in g.leaked <==> b !in g.own)
  {
    forall b | M.InData(b) ensures b in g.leaked <==> b !in g.own {
      assert dbits[b - M.D_START];
    }
  }

  lemma NothingWritten(c: int, F0: map<int, seq<bv8>>, g: M.Layout, offset: nat, buf: seq<bv8>)
    requires c in F0 && offset > |F0[c]|
    ensures WriteOutcome(c, F0, F0, g, g, offset, buf, 0, Count(0))
  {
  }

  lemma FileEntry(tab: seq<M.Inode>, blks: seq<M.Block>, lay: map<int, M.Lay>, dirs: Dirs, c: int)
    requires c in lay && c !in dirs && 0 <= c < |tab|
    ensures c in M.Files(tab, blks, lay, dirs) &&
      M.Files(tab, blks, lay, dirs)[c] == M.FileBytes(blks, lay[c], tab[c].size)
  {
    hide M.FileBytes;
  }

  lemma NoFile(tab: seq<M.Inode>, blks: seq<M.Block>, lay: map<int, M.Lay>, dirs: Dirs, c: int)
    requires c !in lay
    ensures M.Files(tab, blks, lay, dirs) - {c} == M.Files(tab, blks, lay, dirs)
  {
    hide M.FileBytes;
  }

  lemma OneFile(F: map<int, seq<bv8>>, F0: map<int, seq<bv8>>, c: int, bytes: seq<bv8>)
    requires F - {c} == F0 - {c}
    ensures F[c := bytes] == F0[c := bytes]
  {
    assert F[c := bytes] == (F - {c})[c := bytes];
    assert F0[c := bytes] == (F0 - {c})[c := bytes];
  }

  lemma KeptKeys(g: M.Layout, g': M.Layout, ino: int)
    requires Kept(g, g', ino)
    ensures g'.lay.Keys == g.lay.Keys && g'.lay - {ino} == g.lay - {ino}
  {
    hide M.Extends, OwnRest;
    assert g.lay.Keys == g'.lay[ino := g.lay[ino]].Keys;
    forall o | o in g.lay && o != ino ensures g.lay[o] == g'.lay[o] {
      assert g'.lay[ino := g.lay[ino]][o] == g'.lay[o];
    }
  }

  lemma StoppedBytes(bs0: seq<M.Block>, l0: M.Lay, bs: seq<M.Block>, l: M.Lay, size: int, offset: nat, part: seq<bv8>)
    requires Written(bs0, l0, bs, l, offset, part) && offset <= size <= M.BLOCK_SIZE * |l0.blocks|
    ensures M.FileBytes(bs, l, size) == Overwrite(M.FileBytes(bs0, l0, size), offset, part)[..size]
  {
    hide M.Byte;
  }

  lemma FinishedBytes(bs0: seq<M.Block>, l0: M.Lay, bs: seq<M.Block>, l: M.Lay, size: int, offset: nat, buf: seq<bv8>)
    requires Written(bs0, l0, bs, l, offset, buf) && offset <= size <= M.BLOCK_SIZE * |l0.blocks|
    ensures M.FileBytes(bs, l, if offset + |buf| > size then offset + |buf| else size) == Overwrite(M.FileBytes(bs0, l0, size), offset, buf)
  {
    hide M.Byte;
  }

  lemma FinishedExact(l0: M.Lay, l: M.Lay, size: int, offset: nat, len: int, n: int, o: int)
    requires Position(l0, l, offset, len, len, n, o) && 0 <= offset <= size <= M.BLOCK_SIZE * |l0.blocks|
    ensures var size' := if offset + len > size then offset + len else size;
            && size' <= M.BLOCK_SIZE * |l.blocks|
            && (Exact(l0, size) ==> Exact(l, size'))
  {
  }

  // ---------- what a read returns ----------

  // All of the range, or nothing when it reaches past the end.
  function Span(f: seq<bv8>, offset: nat, size: nat): seq<bv8> {
    if offset + size > |f| then [] else f[offset..offset + size]
  }

  lemma BlockByte(blks: seq<M.Block>, l: M.Lay, n: int, o: int)
    requires 0 <= n < |l.blocks| && 0 <= o < M.BLOCK_SIZE && M.RawAt(blks, l.blocks[n])
    ensures M.Byte(blks, l, M.BLOCK_SIZE * n + o) == M.At(blks, l.blocks[n]).bytes[o]
  {
    assert (M.BLOCK_SIZE * n + o) / M.BLOCK_SIZE == n && (M.BLOCK_SIZE * n + o) % M.BLOCK_SIZE == o;
  }

  lemma ReadBack(c: int, F0: map<int, seq<bv8>>, F: map<int, seq<bv8>>, g0: M.Layout, g: M.Layout, offset: nat,
          buf: seq<bv8>, done: int, r: WriteResult)
    requires WriteOutcome(c, F0, F, g0, g, offset, buf, done, r)
    ensures c in F && (r == Count(|buf|) ==> Span(F[c], offset, |buf|) == buf)
  {
  }

  lemma CreatedWalk(dirs: Dirs, dirs': Dirs, path: Path, c: int)
    requires path != [] && Walkable(dirs, path) && OnlyAdds(dirs, dirs', path, c) && dirs'.Keys == dirs.Keys
    ensures Walkable(dirs', path) && Resolve(dirs', path) == Some(c)
  {
    forall k | 0 <= k < |path| ensures Resolve(dirs', path[..k]) == Resolve(dirs, path[..k]) {
      assert |path[..k]| < |path|;
    }
  }

  lemma Completed(c: int, F: map<int, seq<bv8>>, F': map<int, seq<bv8>>, g1: M.Layout, g: M.Layout, g': M.Layout,
          offset: nat, buf: seq<bv8>, done: int)
    requires WriteOutcome(c, F, F', g, g', offset, buf, done, Count(|buf|)) && Kept(g1, g, c) && c in g.lay
    ensures Kept(g1, g', c) && c in F' && F' - {c} == F - {c} && c in g'.lay
    ensures Exact(g.lay[c], |F[c]|) ==> Exact(g'.lay[c], |F'[c]|)
  {
    hide Overwrite, Exact, M.Extends, OwnRest;
    if offset <= |F[c]| {
      KeptTwice(g1, g, g', c);
    }
  }

  lemma OutcomeHas(c: int, F: map<int, seq<bv8>>, F': map<int, seq<bv8>>, g: M.Layout, g': M.Layout, offset: nat,
          buf: seq<bv8>, done: int, r: WriteResult)
    requires WriteOutcome(c, F, F', g, g', offset, buf, done, r)
    ensures c in F'
  {
    hide Kept, Exact, Overwrite;
  }

  lemma PathsAsBefore(dirs0: Dirs, dirs1: Dirs, dirs2: Dirs, path: Path, c: int)
    requires OnlyAdds(dirs0, dirs1, path, c) && OnlyRemoves(dirs1, dirs2, path) && Resolve(dirs0, path).None?
    ensures forall p :: Resolve(dirs2, p) == Resolve(dirs0, p)
  {
    hide Resolve;
  }

  // What an inode owns is all that is lost when it goes.
  lemma OwnWithout(lay: map<int, M.Lay>, own: map<int, M.Role>, c: int)
    requires M.Owned(lay, own) && c in lay
    ensures own - M.Pieces(lay[c]) == OwnRest(own, c)
  {
    M.OwnDistinct(lay, own, c);
    forall b | b in own ensures b in M.Pieces(lay[c]) <==> own[b].ino == c {
      assert M.OwnerOk(lay, own[b], b);
    }
  }

  lemma NothingOwned(lay: map<int, M.Lay>, own: map<int, M.Role>, c: int)
    requires M.Owned(lay, own) && c !in lay
    ensures OwnRest(own, c) == own
  {
    forall b | b in own ensures own[b].ino != c {
      assert M.OwnerOk(lay, own[b], b);
    }
  }

  // An inode that comes, is written to and goes takes nothing along.
  lemma AsBefore(before: Disk, written: Disk, after: Disk, c: int, g1: M.Layout)
    requires before.Good() && written.Good() && after.Good()
    requires c !in before.g.lay && g1 == before.g.(lay := before.g.lay[c := M.Lay([], [])])
    requires Kept(g1, written.g, c) && Forgotten(written.g, after.g, c)
    ensures after.ibits == before.ibits && after.dbits == before.dbits
  {
    var g0, g2, g3 := before.g, written.g, after.g;
    KeptKeys(g1, g2, c);
    OwnWithout(g2.lay, g2.own, c);
    NothingOwned(g0.lay, g0.own, c);
    assert g3.own == g0.own && g3.leaked == g0.leaked && g3.spare == g0.spare;
    assert g3.lay.Keys == g0.lay.Keys;
    SameBits(before.ibits, before.dbits, g0, after.ibits, after.dbits, g3);
    hide M.NodesOk, M.Owned, M.InodesMarked, M.BlocksMarked, M.FreeRaw, OwnRest, M.Pieces;
  }

  lemma SameBits(ib: seq<bool>, db: seq<bool>, g: M.Layout, ib': seq<bool>, db': seq<bool>, g': M.Layout)
    requires M.InodesMarked(ib, g.lay, g.spare) && M.InodesMarked(ib', g'.lay, g'.spare)
    requires M.BlocksMarked(db, g.own, g.leaked) && M.BlocksMarked(db', g'.own, g'.leaked)
    requires g'.own == g.own && g'.leaked == g.leaked && g'.spare == g.spare && g'.lay.Keys == g.lay.Keys
    ensures ib' == ib && db' == db
  {
    forall i | 0 <= i < M.MAX_INUM ensures ib'[i] == ib[i] {
      assert i in g.lay.Keys <==> i in g'.lay.Keys;
    }
    forall i | 0 <= i < M.MAX_DNUM ensures db'[i] == db[i] {
      assert M.InData(M.D_START + i);
    }
  }
}
