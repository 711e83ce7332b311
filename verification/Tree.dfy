/** The directory graph: which names each directory holds, and what paths mean. The
    entries "." and ".." are not part of it. */
module Tree {
  import opened Options

  type Name = seq<char>
  type Path = seq<Name>
  type Dirs = map<int, map<Name, int>>

  const ROOT := 0

  // Component by component from the root, as get_node_by_path walks.
  function Resolve(dirs: Dirs, p: Path): Option<int> {
    if p == [] then Some(ROOT) else Step(dirs, Resolve(dirs, p[..|p| - 1]), p[|p| - 1])
  }

  function Step(dirs: Dirs, at: Option<int>, n: Name): Option<int> {
    if at.Some? && at.value in dirs && n in dirs[at.value] then Some(dirs[at.value][n]) else None
  }

  // Every child is an inode other than the root, has one parent and one name there,
  // and every inode is reached from the root.
  ghost predicate TreeOk(dirs: Dirs, files: set<int>) {
    && ROOT in dirs
    && (forall d, n :: d in dirs && n in dirs[d] ==> IsNode(dirs, files, dirs[d][n]))
    && OneParent(dirs)
    && (forall x :: x in dirs || x in files ==> Reached(dirs, x))
    && dirs.Keys !! files
  }

  ghost predicate IsNode(dirs: Dirs, files: set<int>, c: int) {
    c != ROOT && (c in dirs || c in files)
  }

  ghost predicate OneParent(dirs: Dirs) {
    forall d, n, e, m :: d in dirs && n in dirs[d] && e in dirs && m in dirs[e] && dirs[d][n] == dirs[e][m] ==> d == e && n == m
  }

  ghost predicate Reached(dirs: Dirs, x: int) {
    exists p :: Resolve(dirs, p) == Some(x)
  }

  ghost predicate NotRoot(dirs: Dirs) {
    forall d, n :: d in dirs && n in dirs[d] ==> dirs[d][n] != ROOT
  }

  lemma ChildrenNotRoot(dirs: Dirs, files: set<int>)
    requires TreeOk(dirs, files)
    ensures NotRoot(dirs)
  {
    forall d, m | d in dirs && m in dirs[d] ensures dirs[d][m] != ROOT {
      assert IsNode(dirs, files, dirs[d][m]);
    }
  }

  lemma NotRootPath(dirs: Dirs, p: Path)
    requires NotRoot(dirs)
    ensures Resolve(dirs, p) == Some(ROOT) <==> p == []
  {
    if p != [] && Resolve(dirs, p).Some? {
      var d, m := Resolve(dirs, p[..|p| - 1]).value, p[|p| - 1];
      assert d in dirs && m in dirs[d];
      assert dirs[d][m] != ROOT;
    }
  }

  // No inode has two paths.
  lemma {:induction false} OnePath(dirs: Dirs, p: Path, q: Path)
    requires OneParent(dirs) && NotRoot(dirs)
    requires Resolve(dirs, p).Some? && Resolve(dirs, p) == Resolve(dirs, q)
    ensures p == q
    decreases |p|
  {
    NotRootPath(dirs, p);
    NotRootPath(dirs, q);
    if p == [] || q == [] {
    } else {
      var d, e := Resolve(dirs, p[..|p| - 1]).value, Resolve(dirs, q[..|q| - 1]).value;
      assert dirs[d][p[|p| - 1]] == dirs[e][q[|q| - 1]];
      OnePath(dirs, p[..|p| - 1], q[..|q| - 1]);
      assert p == p[..|p| - 1] + [p[|p| - 1]] && q == q[..|q| - 1] + [q[|q| - 1]];
    }
  }

  // ---------- a new leaf ----------

  function WithEntry(dirs: Dirs, d: int, n: Name, c: int): Dirs
    requires d in dirs
  {
    dirs[d := dirs[d][n := c]]
  }

  // The directory map after creating c in d: c holds nothing, as a file or a directory.
  function WithLeaf(dirs: Dirs, d: int, n: Name, c: int, isDir: bool): Dirs
    requires d in dirs
  {
    if isDir then WithEntry(dirs, d, n, c)[c := map[]] else WithEntry(dirs, d, n, c)
  }

  ghost predicate Leaf(dirs: Dirs, c: int) {
    c in dirs ==> dirs[c] == map[]
  }

  lemma ResolveStep(dirs: Dirs, p: Path, n: Name)
    ensures Resolve(dirs, p + [n]) == Step(dirs, Resolve(dirs, p), n)
  {
    var q := p + [n];
    assert q[..|q| - 1] == p && q[|q| - 1] == n;
  }

  // Exactly the new path changes its meaning.
  lemma {:induction false} AddedPath(dirs: Dirs, files: set<int>, at: Path, d: int, n: Name, c: int, isDir: bool,
          p: Path)
    requires TreeOk(dirs, files) && d in dirs && n !in dirs[d] && Resolve(dirs, at) == Some(d)
    requires c != ROOT && c !in dirs && c !in files
    ensures Resolve(WithLeaf(dirs, d, n, c, isDir), p) == if p == at + [n] then Some(c) else Resolve(dirs, p)
    decreases |p|
  {
    var dirs' := WithLeaf(dirs, d, n, c, isDir);
    ResolveStep(dirs, at, n);
    assert Step(dirs, Some(d), n) == None;
    ChildrenNotRoot(dirs, files);
    hide TreeOk, WithLeaf, OneParent, NotRoot, Step;
    if p == [] {
      ResolveEmpty(dirs);
      ResolveEmpty(dirs');
    } else {
      var front, m := p[..|p| - 1], p[|p| - 1];
      assert p == front + [m] && (p == at + [n] <==> front == at && m == n);
      AddedPath(dirs, files, at, d, n, c, isDir, front);
      ResolveStep(dirs, front, m);
      ResolveStep(dirs', front, m);
      var e := Resolve(dirs, front);
      AddedStep(dirs, files, d, n, c, isDir, e, m);
      if e == Some(d) {
        OnePathOf(dirs, files, front, at);
      }
      if e.Some? {
        ResolvedIsNode(dirs, files, front);
      }
      hide Resolve;
    }
  }

  lemma OnePathOf(dirs: Dirs, files: set<int>, p: Path, q: Path)
    requires TreeOk(dirs, files) && Resolve(dirs, p).Some? && Resolve(dirs, p) == Resolve(dirs, q)
    ensures p == q
  {
    ChildrenNotRoot(dirs, files);
    OnePath(dirs, p, q);
  }

  lemma ResolveEmpty(dirs: Dirs)
    ensures Resolve(dirs, []) == Some(ROOT)
  {
  }

  lemma AddedStep(dirs: Dirs, files: set<int>, d: int, n: Name, c: int, isDir: bool, e: Option<int>, m: Name)
    requires TreeOk(dirs, files) && d in dirs && c !in dirs && c !in files
    ensures var dirs' := WithLeaf(dirs, d, n, c, isDir);
            && Step(dirs', Some(c), m) == None
            && (e != Some(c) ==> Step(dirs', e, m) == if e == Some(d) && m == n then Some(c) else Step(dirs, e, m))
    ensures Step(dirs, None, m) == None && Step(dirs, Some(c), m) == None
  {
  }

  lemma ResolvedIsNode(dirs: Dirs, files: set<int>, p: Path)
    requires TreeOk(dirs, files) && Resolve(dirs, p).Some?
    ensures var x := Resolve(dirs, p).value; x in dirs || x in files
    ensures Resolve(dirs, p) == Some(ROOT) <==> p == []
  {
    if p != [] {
      var d := Resolve(dirs, p[..|p| - 1]).value;
      assert IsNode(dirs, files, dirs[d][p[|p| - 1]]);
    }
  }

  lemma AddKeepsTree(dirs: Dirs, files: set<int>, at: Path, d: int, n: Name, c: int, isDir: bool)
    requires TreeOk(dirs, files) && d in dirs && n !in dirs[d] && Resolve(dirs, at) == Some(d)
    requires c != ROOT && c !in dirs && c !in files
    ensures TreeOk(WithLeaf(dirs, d, n, c, isDir), if isDir then files else files + {c})
  {
    var dirs', files' := WithLeaf(dirs, d, n, c, isDir), if isDir then files else files + {c};
    forall x | x in dirs' || x in files' ensures Reached(dirs', x) {
      if x == c {
        AddedPath(dirs, files, at, d, n, c, isDir, at + [n]);
      } else {
        assert Reached(dirs, x);
        var p :| Resolve(dirs, p) == Some(x);
        ResolveStep(dirs, at, n);
        AddedPath(dirs, files, at, d, n, c, isDir, p);
      }
    }
    AddOneParent(dirs, files, d, n, c, isDir);
  }

  lemma AddOneParent(dirs: Dirs, files: set<int>, d: int, n: Name, c: int, isDir: bool)
    requires TreeOk(dirs, files) && d in dirs && n !in dirs[d]
    requires c != ROOT && c !in dirs && c !in files
    ensures var dirs', files' := WithLeaf(dirs, d, n, c, isDir), if isDir then files else files + {c};
            OneParent(dirs') && forall e, m :: e in dirs' && m in dirs'[e] ==> IsNode(dirs', files', dirs'[e][m])
  {
    var dirs' := WithLeaf(dirs, d, n, c, isDir);
    forall e, m | e in dirs' && m in dirs'[e]
      ensures e in dirs && if e == d && m == n then dirs'[e][m] == c else m in dirs[e] && dirs'[e][m] == dirs[e][m] && dirs[e][m] != c
    {
      assert (e == d && m == n) || IsNode(dirs, files, dirs[e][m]);
    }
  }

  // ---------- removing a leaf ----------

  function WithoutEntry(dirs: Dirs, d: int, n: Name): Dirs
    requires d in dirs
  {
    dirs[d := dirs[d] - {n}]
  }

  function WithoutLeaf(dirs: Dirs, d: int, n: Name, c: int): Dirs
    requires d in dirs
  {
    WithoutEntry(dirs, d, n) - {c}
  }

  // Exactly the removed path loses its meaning.
  lemma {:induction false} RemovedPath(dirs: Dirs, files: set<int>, at: Path, d: int, n: Name, p: Path)
    requires TreeOk(dirs, files) && d in dirs && n in dirs[d] && Resolve(dirs, at) == Some(d)
    requires Leaf(dirs, dirs[d][n])
    ensures Resolve(WithoutLeaf(dirs, d, n, dirs[d][n]), p) == if p == at + [n] then None else Resolve(dirs, p)
    decreases |p|
  {
    var c := dirs[d][n];
    var dirs' := WithoutLeaf(dirs, d, n, c);
    ResolveStep(dirs, at, n);
    assert Step(dirs, Some(d), n) == Some(c) && IsNode(dirs, files, c);
    hide TreeOk, WithoutLeaf, OneParent, NotRoot, Step;
    if p == [] {
      ResolveEmpty(dirs);
      ResolveEmpty(dirs');
    } else {
      var front, m := p[..|p| - 1], p[|p| - 1];
      assert p == front + [m] && (p == at + [n] <==> front == at && m == n);
      RemovedPath(dirs, files, at, d, n, front);
      ResolveStep(dirs, front, m);
      ResolveStep(dirs', front, m);
      var e := Resolve(dirs, front);
      RemovedStep(dirs, d, n, c, e, m);
      if e == Some(d) {
        OnePathOf(dirs, files, front, at);
      } else if e == Some(c) {
        OnePathOf(dirs, files, front, at + [n]);
      }
      hide Resolve;
    }
  }

  lemma RemovedStep(dirs: Dirs, d: int, n: Name, c: int, e: Option<int>, m: Name)
    requires d in dirs && n in dirs[d] && dirs[d][n] == c && Leaf(dirs, c)
    ensures Step(dirs, Some(c), m) == None && Step(dirs, None, m) == None
    ensures Step(WithoutLeaf(dirs, d, n, c), None, m) == None
    ensures e != Some(c) ==>
              Step(WithoutLeaf(dirs, d, n, c), e, m) == if e == Some(d) && m == n then None else Step(dirs, e, m)
  {
  }

  lemma RemoveKeepsTree(dirs: Dirs, files: set<int>, at: Path, d: int, n: Name)
    requires TreeOk(dirs, files) && d in dirs && n in dirs[d] && Resolve(dirs, at) == Some(d)
    requires Leaf(dirs, dirs[d][n])
    ensures dirs[d][n] != d
    ensures TreeOk(WithoutLeaf(dirs, d, n, dirs[d][n]), files - {dirs[d][n]})
  {
    var c := dirs[d][n];
    var dirs', files' := WithoutLeaf(dirs, d, n, c), files - {c};
    assert IsNode(dirs, files, c) && c != d;
    forall x | x in dirs' || x in files' ensures Reached(dirs', x) {
      assert Reached(dirs, x);
      var p :| Resolve(dirs, p) == Some(x);
      ResolveStep(dirs, at, n);
      RemovedPath(dirs, files, at, d, n, p);
    }
    forall e, m | e in dirs' && m in dirs'[e]
      ensures e in dirs && m in dirs[e] && dirs'[e][m] == dirs[e][m] && !(e == d && m == n) && dirs[e][m] != c
    {
      assert !(e == d && m == n);
    }
    forall e, m | e in dirs' && m in dirs'[e] ensures IsNode(dirs', files', dirs'[e][m]) {
      assert IsNode(dirs, files, dirs[e][m]);
    }
  }

  // A walk to the parent of a path never meets the inode the path names.
  lemma ParentAvoidsChild(dirs: Dirs, files: set<int>, at: Path, n: Name, c: int, k: nat)
    requires TreeOk(dirs, files) && Resolve(dirs, at + [n]) == Some(c) && k <= |at|
    ensures Resolve(dirs, at[..k]) != Some(c)
  {
    if Resolve(dirs, at[..k]) == Some(c) {
      OnePathOf(dirs, files, at[..k], at + [n]);
      assert false;
    }
  }
}
