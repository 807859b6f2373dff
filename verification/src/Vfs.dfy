/** The file API over tmpfs, as steps on a map from paths to bytes with one offset per descriptor. */
module Vfs {
  import opened Common
  import opened Paths
  import opened Tmpfs

  const MAX_PARTS: int := 16

  datatype OpenFile = OpenFile(used: bool, offset: nat, vnode: int)

  const SHUT := OpenFile(false, 0, -1)

  /** The node pool, of size at most max, and the descriptor table. */
  datatype Fs = Fs(nodes: seq<Node>, max: nat, fds: seq<OpenFile>)

  ghost predicate FsOk(s: Fs) {
    && TreeOk(s.nodes) && |s.nodes| <= s.max && s.nodes[0].size == 0
    && (forall i :: CapacityOk(s.nodes, i))
    && (forall i :: OnlyRootIsDir(s.nodes, i))
    && (forall fd | 0 <= fd < |s.fds| && s.fds[fd].used ::
        0 <= s.fds[fd].vnode < |s.nodes| && s.fds[fd].offset <= TWO63)
  }

  ghost predicate CapacityOk(nodes: seq<Node>, i: int) {
    0 <= i < |nodes| ==> IsCapacity(|nodes[i].data|)
  }

  /** Nothing creates a directory. */
  predicate OnlyRootIsDir(nodes: seq<Node>, i: int) {
    0 < i < |nodes| ==> nodes[i].kind == File
  }

  // ---- What the file system stands for ----

  type Path = seq<string>

  /** The bytes of the file a path names, if it names a file. */
  function FileAt(nodes: seq<Node>, p: Path): (r: seq<nat>)
    requires HasFile(nodes, p)
  {
    Content(nodes[Resolve(nodes, 0, p)])
  }

  predicate HasFile(nodes: seq<Node>, p: Path) {
    |nodes| > 0 &&
    var i := Resolve(nodes, 0, p);
    0 <= i < |nodes| && nodes[i].kind == File && nodes[i].size <= |nodes[i].data|
  }

  /** Descriptors as the path they are open on and their offset. */
  datatype Handle = Handle(path: Path, offset: nat) | Unused

  function HandleOf(s: Fs, fd: int): Handle
    requires 0 <= fd < |s.fds|
  {
    if s.fds[fd].used then Handle(PathOf(s.nodes, s.fds[fd].vnode), s.fds[fd].offset) else Unused
  }

  // ---- Creating a file ----

  /** tmpfs_create, when the name is free and the pool is not full. */
  function AddNode(nodes: seq<Node>, d: nat, name: string, kind: Kind): seq<Node>
    requires d < |nodes|
  {
    nodes[d := nodes[d].(children := |nodes|)] + [Node(kind, Truncate(name), d, -1, nodes[d].children, [], 0)]
  }

  lemma {:induction false} LastChildAfterAdd(nodes: seq<Node>, d: nat, name: string, kind: Kind, e: int, n: nat)
    requires d < |nodes| && n <= |nodes| + 1
    ensures
      var nodes' := AddNode(nodes, d, name, kind);
      LastChild(nodes', e, n) == if n == |nodes| + 1 && e == d && n > 1 then |nodes|
          else LastChild(nodes, e, if n <= |nodes| then n else |nodes|)
  {
    var nodes' := AddNode(nodes, d, name, kind);
    if n > 0 {
      if n <= |nodes| {
        assert IsChild(nodes', e, n - 1) == IsChild(nodes, e, n - 1);
      }
      LastChildAfterAdd(nodes, d, name, kind, e, n - 1);
    }
  }

  /** A new name in a directory keeps the tree a tree with distinct sibling names. */
  lemma AddKeepsTree(nodes: seq<Node>, d: nat, name: string, kind: Kind)
    requires TreeOk(nodes) && d < |nodes| && nodes[d].kind == Dir && |name| < NAME_MAX && Lookup(nodes, d, name) < 0
    ensures TreeOk(AddNode(nodes, d, name, kind))
  {
    var nodes', n := AddNode(nodes, d, name, kind), |nodes|;
    assert NodeOk(nodes, d);
    forall i ensures NodeOk(nodes', i) {
      assert NodeOk(nodes, i);
      if 0 <= i <= n {
        LastChildAfterAdd(nodes, d, name, kind, i, n + 1);
        NoChildOfNew(nodes, n);
        if i > 0 { LastChildAfterAdd(nodes, d, name, kind, nodes'[i].parent, i); }
      }
    }
    forall i, j ensures NamesDiffer(nodes', i, j) {
      assert NamesDiffer(nodes, i, j);
      if 0 < i < n && j == n && nodes'[i].parent == d { LookupFinds(nodes, d, name, i); }
    }
  }

  lemma {:induction false} NoChildOfNew(nodes: seq<Node>, n: nat)
    requires TreeOk(nodes) && n <= |nodes|
    ensures LastChild(nodes, |nodes|, n) == -1
  {
    if n > 0 {
      assert NodeOk(nodes, n - 1);
      NoChildOfNew(nodes, n - 1);
    }
  }

  lemma {:induction false} PathsAfterAdd(nodes: seq<Node>, d: nat, name: string, kind: Kind, i: nat)
    requires TreeOk(nodes) && d < |nodes| && |name| < NAME_MAX && i <= |nodes|
    ensures PathOf(AddNode(nodes, d, name, kind), i) ==
              if i < |nodes| then PathOf(nodes, i) else PathOf(nodes, d) + [name]
    decreases i
  {
    var nodes' := AddNode(nodes, d, name, kind);
    assert NodeOk(nodes, i);
    if i == |nodes| {
      PathsAfterAdd(nodes, d, name, kind, d);
    } else if i > 0 {
      PathsAfterAdd(nodes, d, name, kind, nodes[i].parent);
    }
  }

  /** Only the new path resolves differently. */
  lemma ResolveAfterAdd(nodes: seq<Node>, d: nat, name: string, p: Path)
    requires d < |nodes| && |name| < NAME_MAX && TreeOk(nodes) && TreeOk(AddNode(nodes, d, name, File))
    ensures Resolve(AddNode(nodes, d, name, File), 0, p) ==
              if p == PathOf(nodes, d) + [name] then |nodes| else Resolve(nodes, 0, p)
    ensures Resolve(nodes, 0, p) < |nodes|
  {
    var nodes', n := AddNode(nodes, d, name, File), |nodes|;
    var i, j := Resolve(nodes, 0, p), Resolve(nodes', 0, p);
    ResolveIff(nodes', p, n);
    PathsAfterAdd(nodes, d, name, File, n);
    ResolveIff(nodes, p, i);
    ResolveIff(nodes', p, j);
    if i >= 0 { PathsAfterAdd(nodes, d, name, File, i); ResolveIff(nodes', p, i); }
    if 0 <= j < n { PathsAfterAdd(nodes, d, name, File, j); ResolveIff(nodes, p, j); }
  }

  /** A new file appears at its path, empty, and no other path changes. */
  lemma AddIsPointUpdate(nodes: seq<Node>, d: nat, name: string, p: Path)
    requires d < |nodes| && |name| < NAME_MAX && TreeOk(nodes) && TreeOk(AddNode(nodes, d, name, File))
    ensures
      var nodes', q := AddNode(nodes, d, name, File), PathOf(nodes, d) + [name];
      && (HasFile(nodes', p) <==> p == q || HasFile(nodes, p))
      && (HasFile(nodes', p) ==> FileAt(nodes', p) == if p == q then [] else FileAt(nodes, p))
  {
    ResolveAfterAdd(nodes, d, name, p);
  }

  // ---- Writing a file ----

  /** Changing only the bytes of a node moves no path. */
  lemma {:induction false} SamePaths(nodes: seq<Node>, k: nat, n: Node, i: int)
    requires k < |nodes| && n == nodes[k].(data := n.data, size := n.size)
    ensures PathOf(nodes[k := n], i) == PathOf(nodes, i)
    decreases i
  {
    if 0 < i < |nodes| && 0 <= nodes[i].parent < i { SamePaths(nodes, k, n, nodes[i].parent); }
  }

  lemma {:induction false} SameLastChild(nodes: seq<Node>, k: nat, n: Node, d: int, m: nat)
    requires k < |nodes| && n == nodes[k].(data := n.data, size := n.size) && m <= |nodes|
    ensures LastChild(nodes[k := n], d, m) == LastChild(nodes, d, m)
  {
    if m > 0 {
      assert IsChild(nodes[k := n], d, m - 1) == IsChild(nodes, d, m - 1);
      SameLastChild(nodes, k, n, d, m - 1);
    }
  }

  lemma WriteKeepsTree(nodes: seq<Node>, k: nat, n: Node)
    requires TreeOk(nodes) && k < |nodes| && n == nodes[k].(data := n.data, size := n.size) && n.size <= |n.data|
    ensures TreeOk(nodes[k := n])
  {
    var nodes' := nodes[k := n];
    forall i ensures NodeOk(nodes', i) {
      assert NodeOk(nodes, i);
      if 0 <= i < |nodes| {
        SameLastChild(nodes, k, n, i, |nodes|);
        if i > 0 { SameLastChild(nodes, k, n, nodes[i].parent, i); }
      }
    }
    forall i, j ensures NamesDiffer(nodes', i, j) { assert NamesDiffer(nodes, i, j); }
  }

  lemma ResolveAfterWrite(nodes: seq<Node>, k: nat, n: Node, p: Path)
    requires TreeOk(nodes) && k < |nodes| && n == nodes[k].(data := n.data, size := n.size) && n.size <= |n.data|
    ensures Resolve(nodes[k := n], 0, p) == Resolve(nodes, 0, p) < |nodes|
  {
    var nodes' := nodes[k := n];
    WriteKeepsTree(nodes, k, n);
    var i, j := Resolve(nodes, 0, p), Resolve(nodes', 0, p);
    ResolveIff(nodes, p, i);
    ResolveIff(nodes', p, j);
    ResolveIff(nodes', p, i);
    ResolveIff(nodes, p, j);
    SamePaths(nodes, k, n, i);
    SamePaths(nodes, k, n, j);
  }

  /** Writing a file changes the bytes at its path and at no other. */
  lemma WriteIsPointUpdate(nodes: seq<Node>, k: nat, n: Node, p: Path)
    requires TreeOk(nodes) && k < |nodes| && nodes[k].kind == File
    requires n == nodes[k].(data := n.data, size := n.size) && n.size <= |n.data|
    ensures
      var nodes', q := nodes[k := n], PathOf(nodes, k);
      && (HasFile(nodes', p) <==> p == q || HasFile(nodes, p))
      && (HasFile(nodes', p) && p != q ==> FileAt(nodes', p) == FileAt(nodes, p))
      && (p == q ==> HasFile(nodes', p) && FileAt(nodes', p) == Content(n))
  {
    ResolveAfterWrite(nodes, k, n, p);
    ResolveIff(nodes, p, k);
  }

  // ---- Steps on the abstract view ----

  /** The files by path, the descriptors by path and offset, and how many more files there is room for.
      The empty path is the root directory, which holds no bytes. */
  datatype View = View(files: imap<Path, seq<nat>>, handles: seq<Handle>, room: int)

  /** The view a state stands for. */
  ghost predicate Shows(s: Fs, v: View) {
    && |v.handles| == |s.fds| && v.room == s.max - |s.nodes|
    && (forall p: Path :: ShowsFile(s.nodes, v.files, p))
    && (forall fd :: ShowsHandle(s, v.handles, fd))
  }

  ghost predicate ShowsFile(nodes: seq<Node>, files: imap<Path, seq<nat>>, p: Path) {
    && (p in files <==> HasFile(nodes, p))
    && (p in files && HasFile(nodes, p) ==> files[p] == FileAt(nodes, p))
  }

  ghost predicate ShowsHandle(s: Fs, handles: seq<Handle>, fd: int) {
    0 <= fd < |s.fds| && fd < |handles| ==> handles[fd] == HandleOf(s, fd)
  }

  function FirstUnused(handles: seq<Handle>): (r: nat)
    ensures r <= |handles| && (r < |handles| ==> handles[r].Unused?)
    ensures forall i | 0 <= i < r :: !handles[i].Unused?
  {
    FirstFrom(handles, (h: Handle) => h.Unused?, 0)
  }

  /** Only absolute paths of at most 16 components can be opened. */
  predicate ValidPath(path: string) {
    path != "" && path[0] == '/' && |Components(path, 0)| <= MAX_PARTS
  }

  /** fs_open: a missing file in the root directory is made, empty, if asked for and there is room; then
      the lowest free descriptor is at offset 0 of the path, if the path names something. */
  ghost predicate Opens(v: View, v': View, path: string, create: bool, ret: int) {
    var p := Components(path, 0);
    var made := ValidPath(path) && create && |p| == 1 && p !in v.files && v.room > 0;
    var there := ValidPath(path) && (p == [] || p in v.files || made);
    var fd := FirstUnused(v.handles);
    && ret == (if there && fd < |v.handles| then fd else EFAIL)
    && v' == View(if made then v.files[p := []] else v.files,
                  if ret >= 0 then v.handles[fd := Handle(p, 0)] else v.handles,
                  if made then v.room - 1 else v.room)
  }

  predicate IsOpen(v: View, fd: int) {
    0 <= fd < |v.handles| && v.handles[fd].Handle?
  }

  ghost predicate IsOpenFile(v: View, fd: int) {
    IsOpen(v, fd) && v.handles[fd].path in v.files
  }

  /** The bytes of a file after src is written at an offset; a gap before the offset may hold anything. */
  ghost predicate Spliced(c: seq<nat>, c': seq<nat>, offset: nat, src: seq<nat>) {
    && |c'| == (if offset + |src| > |c| then offset + |src| else |c|)
    && c'[offset..offset + |src|] == src
    && forall i | 0 <= i < |c| && !(offset <= i < offset + |src|) :: c'[i] == c[i]
  }

  /** fs_write: the bytes at the descriptor's path, spliced at its offset, which moves past them; or a
      failure, without a trace, on what is not an open file or for want of memory. */
  ghost predicate WritesVia(v: View, v': View, fd: int, src: seq<nat>, ret: int) {
    if ret < 0 then v' == v && ret == EFAIL
    else ret == |src| && exists c' :: Wrote(v, v', fd, src, c')
  }

  ghost predicate Wrote(v: View, v': View, fd: int, src: seq<nat>, c': seq<nat>) {
    && IsOpenFile(v, fd)
    && var h := v.handles[fd];
       && Spliced(v.files[h.path], c', h.offset, src)
       && v' == View(v.files[h.path := c'], v.handles[fd := Handle(h.path, h.offset + |src|)], v.room)
  }

  /** fs_read: the bytes from the descriptor's offset on, as many as asked for and there. */
  ghost predicate ReadsVia(v: View, v': View, fd: int, len: nat, ret: int, data: seq<nat>) {
    if !IsOpenFile(v, fd) then v' == v && ret == EFAIL && data == []
    else
      var h := v.handles[fd];
      var c := v.files[h.path];
      && data == (if h.offset >= |c| then [] else c[h.offset..if h.offset + len < |c| then h.offset + len else |c|])
      && ret == |data|
      && v' == v.(handles := v.handles[fd := Handle(h.path, h.offset + |data|)])
  }

  datatype Whence = SeekSet | SeekCur | SeekEnd | SeekBad

  /** A 64-bit word read as signed. */
  function ToSigned(x: nat): (r: int)
    ensures x < TWO64 ==> -(TWO63 as int) <= r < TWO63 && (r == x || r == x - TWO64)
  {
    if x >= TWO63 then x - TWO64 else x
  }

  ghost function SeekBase(v: View, fd: nat, whence: Whence): int
    requires IsOpen(v, fd)
  {
    match whence
    case SeekCur => ToSigned(v.handles[fd].offset)
    case SeekEnd => if IsOpenFile(v, fd) then ToSigned(|v.files[v.handles[fd].path]|) else 0
    case _ => 0
  }

  /** fs_lseek: only the offset moves, to the returned place; it fails on a negative place. */
  ghost predicate SeeksVia(v: View, v': View, fd: int, offset: int, whence: Whence, ret: int) {
    if IsOpen(v, fd) && whence != SeekBad && SeekBase(v, fd, whence) + offset >= 0 then
      && ret == SeekBase(v, fd, whence) + offset
      && v' == v.(handles := v.handles[fd := Handle(v.handles[fd].path, ret)])
    else v' == v && ret == EFAIL
  }

  /** fs_close: the descriptor is free again and its file stays. */
  ghost predicate Closes(v: View, v': View, fd: int, ret: int) {
    if IsOpen(v, fd) then ret == 0 && v' == v.(handles := v.handles[fd := Unused])
    else v' == v && ret == EFAIL
  }

  // ---- That the concrete updates are those steps ----

  predicate OpenOnFile(s: Fs, fd: int) {
    0 <= fd < |s.fds| && s.fds[fd].used && 0 <= s.fds[fd].vnode < |s.nodes| && s.nodes[s.fds[fd].vnode].kind == File
  }

  /** The path names nothing yet and could be created: its parent is a directory and there is a node left. */
  predicate Creatable(s: Fs, p: Path) {
    |s.nodes| > 0 && p != [] && Resolve(s.nodes, 0, p) < 0 && |s.nodes| < s.max &&
    var d := Resolve(s.nodes, 0, p[..|p| - 1]);
    0 <= d < |s.nodes| && s.nodes[d].kind == Dir
  }

  /** A path resolves exactly when it is the root or a file's. */
  lemma NamedIff(s: Fs, v: View, p: Path)
    requires FsOk(s) && Shows(s, v)
    ensures Resolve(s.nodes, 0, p) >= 0 <==> p == [] || p in v.files
  {
    var i := Resolve(s.nodes, 0, p);
    ResolveIff(s.nodes, p, i);
    assert NodeOk(s.nodes, 0) && NodeOk(s.nodes, i) && OnlyRootIsDir(s.nodes, i);
    assert ShowsFile(s.nodes, v.files, p);
  }

  /** Files can be created only directly in the root directory. */
  lemma CreatableIff(s: Fs, v: View, p: Path)
    requires FsOk(s) && Shows(s, v)
    ensures Creatable(s, p) <==> |p| == 1 && p !in v.files && v.room > 0
  {
    NamedIff(s, v, p);
    assert NodeOk(s.nodes, 0);
    if p != [] {
      var front := p[..|p| - 1];
      var d := Resolve(s.nodes, 0, front);
      ResolveIff(s.nodes, front, d);
      assert OnlyRootIsDir(s.nodes, d);
      assert |p| == 1 ==> front == [];
    }
  }

  /** A descriptor in use that is not on the root directory is on a file, which the view shows. */
  lemma OpenFileIff(s: Fs, v: View, fd: int)
    requires FsOk(s) && Shows(s, v)
    ensures IsOpen(v, fd) <==> 0 <= fd < |s.fds| && s.fds[fd].used
    ensures IsOpen(v, fd) ==> v.handles[fd] == HandleOf(s, fd)
    ensures OpenOnFile(s, fd) <==> IsOpenFile(v, fd)
    ensures OpenOnFile(s, fd) ==>
              var n := s.nodes[s.fds[fd].vnode];
              && n.size <= |n.data| <= TWO63 && IsCapacity(|n.data|)
              && v.files[v.handles[fd].path] == Content(n)
  {
    assert ShowsHandle(s, v.handles, fd);
    if 0 <= fd < |s.fds| && s.fds[fd].used {
      var k := s.fds[fd].vnode;
      var p := PathOf(s.nodes, k);
      assert NodeOk(s.nodes, k) && CapacityOk(s.nodes, k);
      CapacityBound(|s.nodes[k].data|);
      ResolveIff(s.nodes, p, k);
      assert ShowsFile(s.nodes, v.files, p);
    }
  }

  /** The directory and the name of a path that can be created. */
  lemma CreateFacts(s: Fs, p: Path)
    requires FsOk(s) && Creatable(s, p)
    ensures
      var d, name := Resolve(s.nodes, 0, p[..|p| - 1]), p[|p| - 1];
      PathOf(s.nodes, d) + [name] == p && Lookup(s.nodes, d, name) < 0
  {
    var d := Resolve(s.nodes, 0, p[..|p| - 1]);
    ResolveIff(s.nodes, p[..|p| - 1], d);
    assert p[..|p| - 1] + [p[|p| - 1]] == p;
  }

  function Added(s: Fs, d: nat, name: string): Fs
    requires d < |s.nodes|
  {
    Fs(AddNode(s.nodes, d, name, File), s.max, s.fds)
  }

  lemma AddKeepsOk(s: Fs, d: nat, name: string)
    requires FsOk(s) && d < |s.nodes| < s.max && s.nodes[d].kind == Dir && |name| < NAME_MAX
        && Lookup(s.nodes, d, name) < 0
    ensures FsOk(Added(s, d, name))
  {
    var s' := Added(s, d, name);
    AddKeepsTree(s.nodes, d, name, File);
    forall i ensures CapacityOk(s'.nodes, i) && OnlyRootIsDir(s'.nodes, i) {
      assert CapacityOk(s.nodes, i) && OnlyRootIsDir(s.nodes, i);
    }
  }

  /** Creating the node of an absent path. */
  lemma CreateStep(s: Fs, v: View, p: Path)
    requires FsOk(s) && Shows(s, v) && Creatable(s, p) && IsName(p[|p| - 1])
    ensures
      var s' := Added(s, Resolve(s.nodes, 0, p[..|p| - 1]), p[|p| - 1]);
      && FsOk(s') && Resolve(s'.nodes, 0, p) == |s.nodes|
      && Shows(s', View(v.files[p := []], v.handles, v.room - 1))
  {
    var d, name := Resolve(s.nodes, 0, p[..|p| - 1]), p[|p| - 1];
    CreateFacts(s, p);
    AddKeepsOk(s, d, name);
    ResolveAfterAdd(s.nodes, d, name, p);
    AddShows(s, v, d, name, p);
  }

  /** The view after a new file. */
  lemma AddShows(s: Fs, v: View, d: nat, name: string, p: Path)
    requires d < |s.nodes| && |name| < NAME_MAX && FsOk(s) && FsOk(Added(s, d, name)) && Shows(s, v)
    requires p == PathOf(s.nodes, d) + [name]
    ensures Shows(Added(s, d, name), View(v.files[p := []], v.handles, v.room - 1))
  {
    var s' := Added(s, d, name);
    var files' := v.files[p := []];
    forall q: Path ensures ShowsFile(s'.nodes, files', q) { AddShowsFile(s, v, d, name, p, q); }
    forall fd ensures ShowsHandle(s', v.handles, fd) { AddShowsHandle(s, v, d, name, fd); }
  }

  lemma AddShowsFile(s: Fs, v: View, d: nat, name: string, p: Path, q: Path)
    requires d < |s.nodes| && |name| < NAME_MAX && TreeOk(s.nodes) && TreeOk(AddNode(s.nodes, d, name, File))
    requires p == PathOf(s.nodes, d) + [name] && Shows(s, v)
    ensures ShowsFile(AddNode(s.nodes, d, name, File), v.files[p := []], q)
  {
    assert ShowsFile(s.nodes, v.files, q);
    AddIsPointUpdate(s.nodes, d, name, q);
  }

  lemma AddShowsHandle(s: Fs, v: View, d: nat, name: string, fd: int)
    requires d < |s.nodes| && |name| < NAME_MAX && FsOk(s) && Shows(s, v)
    ensures ShowsHandle(Added(s, d, name), v.handles, fd)
  {
    assert ShowsHandle(s, v.handles, fd);
    if 0 <= fd < |s.fds| && s.fds[fd].used { PathsAfterAdd(s.nodes, d, name, File, s.fds[fd].vnode); }
  }

  /** Rewriting one descriptor. */
  lemma SetFdStep(s: Fs, v: View, fd: nat, f: OpenFile)
    requires FsOk(s) && Shows(s, v) && fd < |s.fds|
    requires f.used ==> 0 <= f.vnode < |s.nodes| && f.offset <= TWO63
    ensures
      var s' := Fs(s.nodes, s.max, s.fds[fd := f]);
      FsOk(s') && Shows(s', View(v.files, v.handles[fd := HandleOf(s', fd)], v.room))
  {
    var s' := Fs(s.nodes, s.max, s.fds[fd := f]);
    var handles' := v.handles[fd := HandleOf(s', fd)];
    forall g ensures ShowsHandle(s', handles', g) { assert ShowsHandle(s, v.handles, g); }
  }

  /** The state after a descriptor's offset moved. */
  function Moved(s: Fs, fd: nat, offset: nat): Fs
    requires fd < |s.fds|
  {
    Fs(s.nodes, s.max, s.fds[fd := OpenFile(s.fds[fd].used, offset, s.fds[fd].vnode)])
  }

  function MovedView(v: View, fd: nat, offset: nat): View
    requires IsOpen(v, fd)
  {
    View(v.files, v.handles[fd := Handle(v.handles[fd].path, offset)], v.room)
  }

  lemma MoveStep(s: Fs, v: View, fd: nat, offset: nat)
    requires FsOk(s) && Shows(s, v) && IsOpen(v, fd) && offset <= TWO63
    ensures FsOk(Moved(s, fd, offset)) && Shows(Moved(s, fd, offset), MovedView(v, fd, offset))
  {
    assert ShowsHandle(s, v.handles, fd);
    SetFdStep(s, v, fd, OpenFile(s.fds[fd].used, offset, s.fds[fd].vnode));
  }

  function PutNode(s: Fs, k: nat, n: Node): Fs
    requires k < |s.nodes|
  {
    Fs(s.nodes[k := n], s.max, s.fds)
  }

  lemma WriteKeepsOk(s: Fs, k: nat, n: Node)
    requires FsOk(s) && k < |s.nodes| && s.nodes[k].kind == File && IsCapacity(|n.data|)
    requires n == s.nodes[k].(data := n.data, size := n.size) && n.size <= |n.data|
    ensures FsOk(PutNode(s, k, n))
  {
    var s1 := PutNode(s, k, n);
    WriteKeepsTree(s.nodes, k, n);
    assert NodeOk(s.nodes, 0);
    forall i ensures CapacityOk(s1.nodes, i) && OnlyRootIsDir(s1.nodes, i) {
      assert CapacityOk(s.nodes, i) && OnlyRootIsDir(s.nodes, i);
    }
  }

  /** Replacing a file's node changes the bytes at its path. */
  lemma PutNodeStep(s: Fs, v: View, k: nat, n: Node)
    requires FsOk(s) && Shows(s, v) && k < |s.nodes| && s.nodes[k].kind == File
    requires n == s.nodes[k].(data := n.data, size := n.size) && n.size <= |n.data|
    ensures Shows(PutNode(s, k, n), View(v.files[PathOf(s.nodes, k) := Content(n)], v.handles, v.room))
  {
    var s1, q := PutNode(s, k, n), PathOf(s.nodes, k);
    var files' := v.files[q := Content(n)];
    forall p: Path ensures ShowsFile(s1.nodes, files', p) {
      assert ShowsFile(s.nodes, v.files, p);
      WriteIsPointUpdate(s.nodes, k, n, p);
    }
    forall fd ensures ShowsHandle(s1, v.handles, fd) {
      assert ShowsHandle(s, v.handles, fd);
      if 0 <= fd < |s.fds| && s.fds[fd].used { SamePaths(s.nodes, k, n, s.fds[fd].vnode); }
    }
  }

  /** The state after a write through a descriptor. */
  ghost function Written(s: Fs, fd: nat, n: Node, count: nat): Fs
    requires OpenOnFile(s, fd)
  {
    Moved(PutNode(s, s.fds[fd].vnode, n), fd, s.fds[fd].offset + count)
  }

  ghost function WrittenView(v: View, fd: nat, c: seq<nat>, count: nat): View
    requires IsOpen(v, fd)
  {
    var h := v.handles[fd];
    View(v.files[h.path := c], v.handles[fd := Handle(h.path, h.offset + count)], v.room)
  }

  lemma WriteSplices(n: Node, n': Node, offset: nat, src: seq<nat>)
    requires Writes(n, n', offset, src)
    ensures Spliced(Content(n), Content(n'), offset, src)
  {
  }

  /** Replacing a file's node by what tmpfs_write made of it, and moving the offset. */
  lemma WriteStep(s: Fs, v: View, fd: nat, n: Node, src: seq<nat>)
    requires FsOk(s) && Shows(s, v) && OpenOnFile(s, fd) && IsCapacity(|n.data|) && s.fds[fd].offset + |src| <= TWO63
    requires Writes(s.nodes[s.fds[fd].vnode], n, s.fds[fd].offset, src)
    ensures FsOk(Written(s, fd, n, |src|)) && IsOpen(v, fd)
    ensures Shows(Written(s, fd, n, |src|), WrittenView(v, fd, Content(n), |src|))
    ensures WritesVia(v, WrittenView(v, fd, Content(n), |src|), fd, src, |src|)
  {
    var k, h := s.fds[fd].vnode, HandleOf(s, fd);
    OpenFileIff(s, v, fd);
    var s1, v1 := PutNode(s, k, n), View(v.files[h.path := Content(n)], v.handles, v.room);
    assert FsOk(s1) && Shows(s1, v1) by {
      WriteKeepsOk(s, k, n);
      PutNodeStep(s, v, k, n);
    }
    MoveStep(s1, v1, fd, h.offset + |src|);
    assert Wrote(v, WrittenView(v, fd, Content(n), |src|), fd, src, Content(n)) by {
      WriteSplices(s.nodes[k], n, h.offset, src);
    }
  }

  lemma ReadIsSlice(n: Node, offset: nat, len: nat)
    requires n.size <= |n.data|
    ensures
      var c := Content(n);
      ReadAt(n, offset, len) == if offset >= |c| then []
          else c[offset..if offset + len < |c| then offset + len else |c|]
  {
  }

  /** Moving the offset past what tmpfs_read copied. */
  lemma ReadStep(s: Fs, v: View, fd: nat, len: nat, data: seq<nat>)
    requires FsOk(s) && Shows(s, v) && OpenOnFile(s, fd)
        && s.nodes[s.fds[fd].vnode].size <= |s.nodes[s.fds[fd].vnode].data|
    requires data == ReadAt(s.nodes[s.fds[fd].vnode], s.fds[fd].offset, len)
    ensures IsOpen(v, fd) && FsOk(Moved(s, fd, s.fds[fd].offset + |data|))
    ensures Shows(Moved(s, fd, s.fds[fd].offset + |data|), MovedView(v, fd, s.fds[fd].offset + |data|))
    ensures ReadsVia(v, MovedView(v, fd, s.fds[fd].offset + |data|), fd, len, |data|, data)
  {
    OpenFileIff(s, v, fd);
    ReadIsSlice(s.nodes[s.fds[fd].vnode], s.fds[fd].offset, len);
    MoveStep(s, v, fd, s.fds[fd].offset + |data|);
  }

  /** What fs_lseek adds the offset to. */
  lemma SeekBaseIs(s: Fs, v: View, fd: int, whence: Whence)
    requires FsOk(s) && Shows(s, v) && IsOpen(v, fd)
    ensures whence == SeekCur ==> SeekBase(v, fd, whence) == ToSigned(s.fds[fd].offset)
    ensures 0 <= s.fds[fd].vnode < |s.nodes|
    ensures whence == SeekEnd ==> SeekBase(v, fd, whence) == ToSigned(s.nodes[s.fds[fd].vnode].size)
  {
    OpenFileIff(s, v, fd);
    assert OnlyRootIsDir(s.nodes, s.fds[fd].vnode);
  }
}
