/** The file API: the node pool and the descriptor table, updated in place. */
module FileSystem {
  import opened Common
  import opened Paths
  import opened Tmpfs
  import opened Vfs

  /** tmpfs_lookup's loop along the siblings. */
  method LookupChild(nodes: seq<Node>, d: nat, name: string) returns (r: int)
    requires TreeOk(nodes) && d < |nodes|
    ensures r == Lookup(nodes, d, name)
  {
    if nodes[d].kind != Dir { return -1; }
    assert NodeOk(nodes, d);
    r := nodes[d].children;
    while r >= 0 && nodes[r].name != name
      invariant r == -1 || 0 < r < |nodes|
      invariant LookupFrom(nodes, r, name) == LookupFrom(nodes, nodes[d].children, name)
      decreases r
    {
      assert NodeOk(nodes, r);
      r := nodes[r].next;
    }
  }

  /** tmpfs_read's copy loop. */
  method ReadNode(n: Node, offset: nat, len: nat) returns (out: seq<nat>)
    requires n.size <= |n.data|
    ensures out == ReadAt(n, offset, len)
  {
    out := [];
    if offset >= n.size { return; }
    var count := if len < n.size - offset then len else n.size - offset;
    while |out| < count
      invariant |out| <= count && out == n.data[offset..offset + |out|]
    {
      out := out + [n.data[offset + |out|]];
    }
  }

  /** resolve_path's loop along the components. */
  method ResolveParts(nodes: seq<Node>, parts: Path) returns (r: int)
    requires TreeOk(nodes)
    ensures r == Resolve(nodes, 0, parts)
  {
    r := 0;
    var i := 0;
    while i < |parts|
      invariant 0 <= i <= |parts| && r == Resolve(nodes, 0, parts[..i])
    {
      ResolveIff(nodes, parts[..i], r);
      if r >= 0 {
        var c := LookupChild(nodes, r, parts[i]);
        LookupFinds(nodes, r, parts[i], c);
        r := if c < 0 then -1 else c;
      }
      assert parts[..i + 1][..i] == parts[..i];
      i := i + 1;
    }
    assert parts[..i] == parts;
  }

  class Files {
    var nodes: seq<Node>
    const max: nat
    var fds: seq<OpenFile>

    /** The files by path and the descriptors by path and offset. */
    ghost var view: View

    /** A mounted root directory and no open descriptor. */
    constructor (max: nat, fdCount: nat)
      requires max > 0
      ensures Valid() && view == View(imap[], seq(fdCount, _ => Unused), max - 1)
    {
      nodes := [Node(Dir, "/", -1, -1, -1, [], 0)];
      this.max := max;
      fds := seq(fdCount, _ => SHUT);
      view := View(imap[], seq(fdCount, _ => Unused), max - 1);
      new;
      RootOnly(State(), view);
    }

    ghost function State(): Fs
      reads this
    {
      Fs(nodes, max, fds)
    }

    /** The node pool is a tree of files with sound buffers and shows the view. */
    ghost predicate Valid()
      reads this
    {
      FsOk(State()) && Shows(State(), view)
    }

    /** fs_open. */
    method Open(path: string, create: bool) returns (ret: int)
      requires Valid()
      modifies this
      ensures Valid() && Opens(old(view), view, path, create, ret)
    {
      var parts, ok := Parse(path);
      if !ok { return EFAIL; }
      NamedIff(State(), view, parts);
      CreatableIff(State(), view, parts);
      var node := ResolveParts(nodes, parts);
      ResolveIff(nodes, parts, node);
      if node < 0 && create && |parts| > 0 {
        node := CreateFile(parts);
      }
      if node < 0 { return EFAIL; }
      ret := TakeFd(parts, node);
    }

    /** The create branch of fs_open, with tmpfs_create. */
    method CreateFile(parts: Path) returns (node: int)
      requires Valid() && |parts| > 0 && Resolve(nodes, 0, parts) < 0 && IsName(parts[|parts| - 1])
      modifies this`nodes, this`view
      ensures Valid()
      ensures if Creatable(old(State()), parts)
              then node >= 0 && node == Resolve(nodes, 0, parts)
                  && view == View(old(view).files[parts := []], old(view).handles, old(view).room - 1)
              else node < 0 && nodes == old(nodes) && view == old(view)
    {
      var front, leaf := parts[..|parts| - 1], parts[|parts| - 1];
      var dir := ResolveParts(nodes, front);
      ResolveIff(nodes, front, dir);
      if dir < 0 || nodes[dir].kind != Dir || |nodes| >= max { return -1; }
      CreateStep(State(), view, parts);
      nodes := nodes[dir := nodes[dir].(children := |nodes|)] +
               [Node(File, Truncate(leaf), dir, -1, nodes[dir].children, [], 0)];
      view := View(view.files[parts := []], view.handles, view.room - 1);
      return |nodes| - 1;
    }

    /** The checks of resolve_path on the path itself. */
    method Parse(path: string) returns (parts: Path, ok: bool)
      ensures ok <==> ValidPath(path)
      ensures ok ==> parts == Components(path, 0) && forall i | 0 <= i < |parts| :: IsName(parts[i])
    {
      parts := [];
      if |path| == 0 || path[0] != '/' { return parts, false; }
      var n;
      n, parts := SplitPath(path, MAX_PARTS);
      ComponentsAreNames(path, 0);
      return parts, n >= 0;
    }

    /** alloc_fd, and the writes that bind the descriptor to the node. */
    method TakeFd(ghost p: Path, node: nat) returns (fd: int)
      requires Valid() && Resolve(nodes, 0, p) == node
      modifies this`fds, this`view
      ensures Valid()
      ensures
        var f := FirstUnused(old(view).handles);
        && fd == (if f < |old(fds)| then f else EFAIL)
        && view == (if fd >= 0 then View(old(view).files, old(view).handles[f := Handle(p, 0)], old(view).room)
            else old(view))
    {
      var i: nat := 0;
      while i < |fds|
        invariant i <= |fds| && fds == old(fds) && view == old(view) && Valid()
        invariant |view.handles| == |fds| && forall k | 0 <= k < i :: !view.handles[k].Unused?
      {
        assert ShowsHandle(State(), view.handles, i);
        if !fds[i].used {
          ResolveIff(nodes, p, node);
          SetFd(i, OpenFile(true, 0, node));
          return i;
        }
        i := i + 1;
      }
      return EFAIL;
    }

    method SetFd(fd: nat, f: OpenFile)
      requires Valid() && fd < |fds| && (f.used ==> 0 <= f.vnode < |nodes| && f.offset <= TWO63)
      modifies this`fds, this`view
      ensures Valid() && fds == old(fds)[fd := f]
      ensures view == View(old(view).files, old(view).handles[fd := HandleOf(State(), fd)], old(view).room)
    {
      SetFdStep(State(), view, fd, f);
      fds := fds[fd := f];
      view := View(view.files, view.handles[fd := HandleOf(State(), fd)], view.room);
    }

    /** fs_write. */
    method Write(fd: int, src: seq<nat>, alloc: Allocator) returns (ret: int)
      requires Valid()
      requires IsOpenFile(view, fd) ==> view.handles[fd].offset + |src| <= TWO63
      modifies this
      ensures Valid() && WritesVia(old(view), view, fd, src, ret)
      ensures ret >= 0 ==> IsOpenFile(old(view), fd)
      ensures IsOpenFile(old(view), fd) && NeverFails(alloc) ==> ret == |src|
    {
      OpenFileIff(State(), view, fd);
      if fd < 0 || fd >= |fds| || !fds[fd].used { return EFAIL; }
      var k := fds[fd].vnode;
      if nodes[k].kind != File { return EFAIL; }
      var ok, n := WriteNode(nodes[k], fds[fd].offset, src, alloc);
      if !ok { return EFAIL; }
      WriteStep(State(), view, fd, n, src);
      Store(fd, k, n, |src|);
      return |src|;
    }

    method Store(fd: nat, k: nat, n: Node, count: nat)
      requires OpenOnFile(State(), fd) && k == fds[fd].vnode && IsOpen(view, fd) && n.size <= |n.data|
      modifies this`nodes, this`fds, this`view
      ensures State() == Written(old(State()), fd, n, count)
      ensures view == WrittenView(old(view), fd, Content(n), count)
    {
      nodes := nodes[k := n];
      fds := fds[fd := OpenFile(fds[fd].used, fds[fd].offset + count, fds[fd].vnode)];
      view := WrittenView(view, fd, Content(n), count);
    }

    /** fs_read. */
    method Read(fd: int, len: nat) returns (ret: int, data: seq<nat>)
      requires Valid()
      modifies this`fds, this`view
      ensures Valid() && ReadsVia(old(view), view, fd, len, ret, data)
    {
      data := [];
      OpenFileIff(State(), view, fd);
      if fd < 0 || fd >= |fds| || !fds[fd].used { return EFAIL, data; }
      var k := fds[fd].vnode;
      if nodes[k].kind != File { return EFAIL, data; }
      data := ReadOpen(fd, len);
      return |data|, data;
    }

    method ReadOpen(fd: nat, len: nat) returns (data: seq<nat>)
      requires Valid() && OpenOnFile(State(), fd) && nodes[fds[fd].vnode].size <= |nodes[fds[fd].vnode].data|
      modifies this`fds, this`view
      ensures Valid() && ReadsVia(old(view), view, fd, len, |data|, data)
    {
      data := ReadNode(nodes[fds[fd].vnode], fds[fd].offset, len);
      ReadStep(State(), view, fd, len, data);
      Advance(fd, |data|);
    }

    method Advance(fd: nat, count: nat)
      requires fd < |fds| && IsOpen(view, fd)
      modifies this`fds, this`view
      ensures State() == Moved(old(State()), fd, old(fds)[fd].offset + count)
      ensures view == MovedView(old(view), fd, old(fds)[fd].offset + count)
    {
      Move(fd, fds[fd].offset + count);
    }

    method Move(fd: nat, offset: nat)
      requires fd < |fds| && IsOpen(view, fd)
      modifies this`fds, this`view
      ensures State() == Moved(old(State()), fd, offset) && view == MovedView(old(view), fd, offset)
    {
      fds := fds[fd := OpenFile(fds[fd].used, offset, fds[fd].vnode)];
      view := MovedView(view, fd, offset);
    }

    /** fs_lseek. */
    method Seek(fd: int, offset: int, whence: Whence) returns (ret: int)
      requires Valid()
      requires IsOpen(view, fd) ==> 0 - TWO63 as int <= SeekBase(view, fd, whence) + offset < TWO63
      modifies this`fds, this`view
      ensures Valid() && SeeksVia(old(view), view, fd, offset, whence, ret)
    {
      OpenFileIff(State(), view, fd);
      if fd < 0 || fd >= |fds| || !fds[fd].used { return EFAIL; }
      SeekBaseIs(State(), view, fd, whence);
      var base: int := 0;
      if whence == SeekCur {
        base := ToSigned(fds[fd].offset);
      } else if whence == SeekEnd {
        base := ToSigned(nodes[fds[fd].vnode].size);
      } else if whence != SeekSet {
        return EFAIL;
      }
      var next := base + offset;
      if next < 0 { return EFAIL; }
      MoveStep(State(), view, fd, next);
      Move(fd, next);
      return next;
    }

    /** fs_close. */
    method Close(fd: int) returns (ret: int)
      requires Valid()
      modifies this`fds, this`view
      ensures Valid() && Closes(old(view), view, fd, ret)
    {
      OpenFileIff(State(), view, fd);
      if fd < 0 || fd >= |fds| || !fds[fd].used { return EFAIL; }
      SetFd(fd, SHUT);
      return 0;
    }
  }

  lemma RootOnly(s: Fs, v: View)
    requires s.nodes == [Node(Dir, "/", -1, -1, -1, [], 0)] && s.max > 0
    requires s.fds == seq(|s.fds|, _ => SHUT)
    requires v == View(imap[], seq(|s.fds|, _ => Unused), s.max - 1)
    ensures FsOk(s) && Shows(s, v)
  {
    forall p: Path ensures ShowsFile(s.nodes, v.files, p) {
      assert TreeOk(s.nodes);
      ResolveIff(s.nodes, p, Resolve(s.nodes, 0, p));
    }
  }
}
