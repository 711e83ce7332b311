/** Consequences of a proper disk, and what the file system does where its code departs
    from its intent. */
module RufsLaws {
  import opened Options
  import opened Tree
  import M = RufsModel
  import R = Rufs

  // ---------- block ownership ----------

  // The places from which a block can be referred to.
  datatype Ref = Direct(ino: int, i: int) | Indirect(ino: int, k: int) | Entry(ino: int, k: int, j: int)

  // The block number stored at such a place of an inode in use.
  ghost function Target(tab: seq<M.Inode>, blks: seq<M.Block>, lay: map<int, M.Lay>, r: Ref): int {
    if r.ino !in lay || !(0 <= r.ino < |tab|) then -1
    else match r
      case Direct(ino, i) => if 0 <= i < |tab[ino].direct| then tab[ino].direct[i] else -1
      case Indirect(ino, k) => if 0 <= k < |tab[ino].indirect| then tab[ino].indirect[k] else -1
      case Entry(ino, k, j) =>
        if 0 <= k < |tab[ino].indirect| && M.InData(tab[ino].indirect[k]) && |blks| == M.MAX_DNUM
           && M.At(blks, tab[ino].indirect[k]).Ptrs? && 0 <= j < |M.At(blks, tab[ino].indirect[k]).ptrs|
        then M.At(blks, tab[ino].indirect[k]).ptrs[j] else -1
  }

  // What the stored number means for the layout.
  ghost predicate Placed(own: map<int, M.Role>, r: Ref, b: int) {
    b in own && own[b] ==
    match r
    case Direct(ino, i) => M.Data(ino, i)
    case Indirect(ino, k) => M.Ind(ino, k)
    case Entry(ino, k, j) => M.Data(ino, M.DIRECT + M.CAP * k + j)
  }

  lemma TargetPlaced(tab: seq<M.Inode>, blks: seq<M.Block>, ibits: seq<bool>, dbits: seq<bool>, g: M.Layout,
          dirs: Dirs, r: Ref)
    requires M.Good(tab, blks, ibits, dbits, g, dirs) && Target(tab, blks, g.lay, r) != -1
    ensures Placed(g.own, r, Target(tab, blks, g.lay, r)) && (r.Direct? ==> r.i < M.DIRECT) && (r.Entry? ==> 0 <= r.j < M.CAP)
  {
    var l := g.lay[r.ino];
    assert M.NodeOk(tab[r.ino], blks, r.ino, M.KidsOf(dirs, r.ino), l);
    M.OwnDistinct(g.lay, g.own, r.ino);
    if r.Entry? && r.k < |l.inds| {
      assert M.IndOk(blks, l, r.k);
    }
  }

  // Every block an inode in use refers to lies in the data region, is marked, and is
  // referred to from nowhere else in the file system.
  lemma ReferencedOnce(tab: seq<M.Inode>, blks: seq<M.Block>, ibits: seq<bool>, dbits: seq<bool>, g: M.Layout,
          dirs: Dirs, r: Ref, s: Ref)
    requires M.Good(tab, blks, ibits, dbits, g, dirs) && Target(tab, blks, g.lay, r) != -1
    ensures M.InData(Target(tab, blks, g.lay, r)) && |dbits| == M.MAX_DNUM &&
      dbits[Target(tab, blks, g.lay, r) - M.D_START]
    ensures Target(tab, blks, g.lay, s) == Target(tab, blks, g.lay, r) ==> s == r
  {
    TargetPlaced(tab, blks, ibits, dbits, g, dirs, r);
    if Target(tab, blks, g.lay, s) == Target(tab, blks, g.lay, r) {
      TargetPlaced(tab, blks, ibits, dbits, g, dirs, s);
    }
    hide Target;
  }

  // ---------- reading and writing as written ----------

  function Chunk(offset: nat, size: nat): nat {
    if size <= M.BLOCK_SIZE - offset % M.BLOCK_SIZE then size else M.BLOCK_SIZE - offset % M.BLOCK_SIZE
  }

  // rufs_read copies every chunk to the start of the buffer.
  function ReadAsWritten(buf: seq<bv8>, f: seq<bv8>, offset: nat, size: nat): (r: seq<bv8>)
    requires offset + size <= |f| && size <= |buf|
    ensures |r| == |buf|
    decreases size
  {
    if size == 0 then buf
    else
      var k := Chunk(offset, size);
      ReadAsWritten(f[offset..offset + k] + buf[k..], f, offset + k, size - k)
  }

  lemma {:induction false} ReadUntouched(buf: seq<bv8>, f: seq<bv8>, offset: nat, size: nat, p: nat)
    requires offset + size <= |f| && size <= p < |buf|
    ensures ReadAsWritten(buf, f, offset, size)[p] == buf[p]
    decreases size
  {
    if size == 0 {
    } else {
      var k := Chunk(offset, size);
      ReadUntouched(f[offset..offset + k] + buf[k..], f, offset + k, size - k, p);
    }
  }

  // It returns the range, whatever the buffer held before, exactly when the range
  // lies within one block.
  lemma ReadAsWrittenCondition(f: seq<bv8>, offset: nat, size: nat)
    requires offset + size <= |f|
    ensures (forall buf: seq<bv8> :: |buf| == size ==> ReadAsWritten(buf, f, offset, size) == R.Span(f, offset, size))
            <==> size <= M.BLOCK_SIZE - offset % M.BLOCK_SIZE
  {
    if size <= M.BLOCK_SIZE - offset % M.BLOCK_SIZE {
      forall buf: seq<bv8> | |buf| == size ensures ReadAsWritten(buf, f, offset, size) == R.Span(f, offset, size) {
        ReadOneBlock(buf, f, offset, size);
      }
    } else {
      var right := f[offset..offset + size];
      var buf := right[size - 1 := right[size - 1] ^ 1];
      var k := Chunk(offset, size);
      ReadUntouched(f[offset..offset + k] + buf[k..], f, offset + k, size - k, size - 1);
      assert |buf| == size && ReadAsWritten(buf, f, offset, size)[size - 1] == buf[size - 1] != right[size - 1];
    }
  }

  lemma ReadOneBlock(buf: seq<bv8>, f: seq<bv8>, offset: nat, size: nat)
    requires offset + size <= |f| && |buf| == size <= M.BLOCK_SIZE - offset % M.BLOCK_SIZE
    ensures ReadAsWritten(buf, f, offset, size) == R.Span(f, offset, size)
  {
    if size > 0 {
      assert Chunk(offset, size) == size;
      assert f[offset..offset + size] + buf[size..] == f[offset..offset + size];
    }
  }

  // rufs_write takes every chunk from the start of the buffer. Here f is the space of the
  // blocks the write needs.
  function WriteAsWritten(f: seq<bv8>, buf: seq<bv8>, offset: nat, size: nat): (r: seq<bv8>)
    requires offset + size <= |f| && size <= |buf|
    ensures |r| == |f|
    decreases size
  {
    if size == 0 then f
    else
      var k := Chunk(offset, size);
      WriteAsWritten(Splice(f, offset, buf[..k]), buf, offset + k, size - k)
  }

  lemma {:induction false} WriteUntouched(f: seq<bv8>, buf: seq<bv8>, offset: nat, size: nat, p: nat)
    requires offset + size <= |f| && size <= |buf| && p < offset
    ensures WriteAsWritten(f, buf, offset, size)[p] == f[p]
    decreases size
  {
    if size == 0 {
    } else {
      var k := Chunk(offset, size);
      WriteUntouched(Splice(f, offset, buf[..k]), buf, offset + k, size - k, p);
    }
  }

  // What a write as written makes of file f, when the blocks it needs hold the bytes
  // spare behind the end of the file.
  function FileAsWritten(f: seq<bv8>, spare: seq<bv8>, buf: seq<bv8>, offset: nat): seq<bv8>
    requires offset <= |f| && offset + |buf| <= |f| + |spare|
  {
    WriteAsWritten(f + spare, buf, offset, |buf|)[..if offset + |buf| > |f| then offset + |buf| else |f|]
  }

  // It overwrites or extends the file with the buffer, whatever that holds, exactly when
  // the buffer goes into one block.
  lemma WriteAsWrittenCondition(f: seq<bv8>, spare: seq<bv8>, offset: nat, size: nat)
    requires offset <= |f| && offset + size <= |f| + |spare|
    ensures (forall buf: seq<bv8> :: |buf| == size ==> FileAsWritten(f, spare, buf, offset) == R.Overwrite(f, offset, buf))
            <==> size <= M.BLOCK_SIZE - offset % M.BLOCK_SIZE
  {
    hide WriteAsWritten, Chunk, Splice;
    if size <= M.BLOCK_SIZE - offset % M.BLOCK_SIZE {
      forall buf: seq<bv8> | |buf| == size ensures FileAsWritten(f, spare, buf, offset) == R.Overwrite(f, offset, buf) {
        WriteOneBlock(f + spare, buf, offset, size);
      }
    } else {
      ChunkShort(offset, size);
      var k := Chunk(offset, size);
      var buf: seq<bv8> := seq(size, i => if i == k then 1 else 0);
      SecondBlock(f + spare, buf, offset, size);
      assert |buf| == size && R.Overwrite(f, offset, buf)[offset + k] == buf[k] == 1;
      assert FileAsWritten(f, spare, buf, offset)[offset + k] == 0;
    }
  }

  // The second block starts with the first byte of the buffer again.
  lemma SecondBlock(f: seq<bv8>, buf: seq<bv8>, offset: nat, size: nat)
    requires offset + size <= |f| && |buf| == size > M.BLOCK_SIZE - offset % M.BLOCK_SIZE
    ensures WriteAsWritten(f, buf, offset, size)[offset + Chunk(offset, size)] == buf[0]
  {
    hide WriteAsWritten, Chunk, Splice;
    ChunkShort(offset, size);
    var k := Chunk(offset, size);
    var f1 := Splice(f, offset, buf[..k]);
    WriteStep(f, buf, offset, size);
    WriteStep(f1, buf, offset + k, size - k);
    var k1 := Chunk(offset + k, size - k);
    var f2 := Splice(f1, offset + k, buf[..k1]);
    WriteUntouched(f2, buf, offset + k + k1, size - k - k1, offset + k);
  }

  lemma ChunkShort(offset: nat, size: nat)
    requires size > M.BLOCK_SIZE - offset % M.BLOCK_SIZE
    ensures 0 < Chunk(offset, size) < size
  {
  }

  lemma WriteStep(f: seq<bv8>, buf: seq<bv8>, offset: nat, size: nat)
    requires offset + size <= |f| && 0 < size <= |buf|
    ensures var k := Chunk(offset, size);
            0 < k <= size && WriteAsWritten(f, buf, offset, size) ==
            WriteAsWritten(Splice(f, offset, buf[..k]), buf, offset + k, size - k)
  {
  }

  lemma WriteOneBlock(f: seq<bv8>, buf: seq<bv8>, offset: nat, size: nat)
    requires offset + size <= |f| && |buf| == size <= M.BLOCK_SIZE - offset % M.BLOCK_SIZE
    ensures WriteAsWritten(f, buf, offset, size) == Splice(f, offset, buf)
  {
    if size == 0 {
      assert f == Splice(f, offset, buf);
    } else {
      assert Chunk(offset, size) == size && buf[..size] == buf;
    }
  }

  // rufs_write adds the length to the size. The size is then that of the overwritten
  // file exactly for appends and empty writes.
  lemma SizeAsWrittenCondition(f: seq<bv8>, offset: nat, buf: seq<bv8>)
    requires offset <= |f|
    ensures |f| + |buf| == |R.Overwrite(f, offset, buf)| <==> offset == |f| || buf == []
  {
    assert buf == [] <==> |buf| == 0;
  }

  // It does happen: overwriting the only byte of a file doubles its size.
  lemma SizeAsWrittenFails()
    ensures |[7 as bv8]| + |[8 as bv8]| != |R.Overwrite([7], 0, [8])|
  {
  }

  // ---------- removing a directory as written ----------

  // The emptiness test of rmdir looks at a table it has not read and always passes.
  // Removing directory c then leaves a tree exactly when c was empty.
  lemma RemovalCondition(dirs: Dirs, files: set<int>, at: Path, d: int, n: Name)
    requires TreeOk(dirs, files) && d in dirs && n in dirs[d] && Resolve(dirs, at) == Some(d) && dirs[d][n] in dirs
    ensures dirs[d][n] != d
    ensures TreeOk(WithoutLeaf(dirs, d, n, dirs[d][n]), files - {dirs[d][n]}) <==> dirs[dirs[d][n]] == map[]
  {
    var c := dirs[d][n];
    NotOwnParent(dirs, files, at, d, n);
    if dirs[c] == map[] {
      RemoveKeepsTree(dirs, files, at, d, n);
    } else {
      assert exists m :: m in dirs[c];
      var m :| m in dirs[c];
      Orphan(dirs, files, d, n, c, m);
    }
  }

  // It does happen: removing /a while it holds the file /a/b.
  lemma RemovalFails()
    ensures var dirs: Dirs := map[ROOT := map["a" := 1], 1 := map["b" := 2]];
            TreeOk(dirs, {2}) && !TreeOk(WithoutLeaf(dirs, ROOT, "a", 1), {2} - {1})
  {
    var dirs: Dirs := map[ROOT := map["a" := 1], 1 := map["b" := 2]];
    assert Resolve(dirs, []) == Some(ROOT);
    ResolveStep(dirs, [], "a");
    ResolveStep(dirs, ["a"], "b");
    assert [] + ["a"] == ["a"] && ["a"] + ["b"] == ["a", "b"];
    assert Reached(dirs, ROOT) && Reached(dirs, 1) && Reached(dirs, 2);
    RemovalCondition(dirs, {2}, [], ROOT, "a");
  }

  lemma NotOwnParent(dirs: Dirs, files: set<int>, at: Path, d: int, n: Name)
    requires TreeOk(dirs, files) && d in dirs && n in dirs[d] && Resolve(dirs, at) == Some(d)
    ensures dirs[d][n] != d
  {
    ResolveStep(dirs, at, n);
    if dirs[d][n] == d {
      OnePathOf(dirs, files, at, at + [n]);
    }
  }

  // A child of a removed directory is no longer reached.
  lemma Orphan(dirs: Dirs, files: set<int>, d: int, n: Name, c: int, m: Name)
    requires TreeOk(dirs, files) && d in dirs && n in dirs[d] && dirs[d][n] == c && c in dirs && c != d && m in dirs[c]
    ensures !TreeOk(WithoutLeaf(dirs, d, n, c), files - {c})
  {
    var x, dirs' := dirs[c][m], WithoutLeaf(dirs, d, n, c);
    assert IsNode(dirs, files, x) && (dirs[c][m] == dirs[d][n] ==> c == d);
    forall p ensures Resolve(dirs', p) != Some(x) {
      OrphanPath(dirs, files, d, n, c, m, p);
    }
    assert !Reached(dirs', x);
  }

  lemma OrphanPath(dirs: Dirs, files: set<int>, d: int, n: Name, c: int, m: Name, p: Path)
    requires TreeOk(dirs, files) && d in dirs && n in dirs[d] && c in dirs && c != d && m in dirs[c]
    ensures Resolve(WithoutLeaf(dirs, d, n, c), p) != Some(dirs[c][m])
  {
    var dirs' := WithoutLeaf(dirs, d, n, c);
    ChildrenNotRoot(dirs, files);
    assert dirs[c][m] != ROOT;
    if p != [] && Resolve(dirs', p[..|p| - 1]).Some? {
      var e, k := Resolve(dirs', p[..|p| - 1]).value, p[|p| - 1];
      if e in dirs' && k in dirs'[e] {
        assert e != c && dirs'[e][k] == dirs[e][k] && (dirs[e][k] == dirs[c][m] ==> e == c);
      }
    }
  }

  // ---------- the guard of writei ----------

  // writei refuses inode numbers above 1024. Of those it accepts, exactly 1024 itself
  // falls outside the inode blocks: it would be written over the first data block. No
  // caller passes it, as GetAvailIno returns numbers below MAX_INUM.
  lemma WriteiGuardCondition(ino: nat)
    requires !(ino > M.MAX_INUM)
    ensures 3 + ino / M.INODES_PER_BLOCK < M.D_START <==> ino != M.MAX_INUM
    ensures 3 + M.MAX_INUM / M.INODES_PER_BLOCK == M.D_START
  {
  }
}
