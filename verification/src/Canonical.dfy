/** Without empty tables the shape of a tree is a function of what it maps: nothing leaks. */
module Canonical {
  import opened PageTables

  /** Some page is translated through the table at p. */
  ghost predicate Used(m: Memory, root: nat, p: Path) {
    exists v: VPage :: WalksVia(m, root, p, v)
  }

  ghost predicate WalksVia(m: Memory, root: nat, p: Path, v: VPage) {
    && Level(p) < 4
    && v.Prefix(Level(p)) == p
    && Walk(m, root, v).Some?
    && Walk(m, root, v).value.level >= Level(p)
  }

  function Replace(v: VPage, level: nat, i: Index): (w: VPage)
    requires level < 4
    ensures w.At(level) == i && forall k: nat | k < 4 && k != level :: w.At(k) == v.At(k)
  {
    if level == 0 then v.(i0 := i) else if level == 1 then v.(i1 := i)
    else if level == 2 then v.(i2 := i) else v.(i3 := i)
  }

  lemma {:induction false} ReplaceKeepsPrefix(v: VPage, level: nat, i: Index, k: nat)
    requires level < 4 && k <= level
    ensures Replace(v, level, i).Prefix(k) == v.Prefix(k)
  {
    if k > 0 { ReplaceKeepsPrefix(v, level, i, k - 1); }
  }

  /** Every path of level at most 3 is the prefix of some page. */
  lemma {:induction false} PageThrough(p: Path) returns (v: VPage)
    requires Level(p) < 4
    ensures v.Prefix(Level(p)) == p
  {
    match p
    case Root => v := VPage(0, 0, 0, 0);
    case Down(q, i) =>
      var w := PageThrough(q);
      v := Replace(w, Level(q), i);
      ReplaceKeepsPrefix(w, Level(q), i, Level(q));
  }

  lemma {:induction false} ReachedLevel(m: Memory, root: nat, p: Path)
    requires TableAt(m, root, p).Some?
    ensures Level(p) < 4
  {
    if p.Down? { ReachedLevel(m, root, p.parent); }
  }

  /** Below every reachable table other than the root some page is mapped. */
  lemma {:induction false} TableIsUsed(m: Memory, root: nat, p: Path, t: nat) returns (v: VPage)
    requires TreeShaped(m, root) && NoEmptyTable(m, root, Root)
    requires Reaches(m, root, p, t) && p != Root
    ensures WalksVia(m, root, p, v)
    decreases 4 - Level(p)
  {
    ReachedLevel(m, root, p);
    var level := Level(p);
    var i: Index :| Present(m[t][i]);
    var w := PageThrough(p);
    v := Replace(w, level, i);
    ReplaceKeepsPrefix(w, level, i, level);
    WalkContinues(m, root, v, level, t);
    if level < 3 && Links(m[t][i]) {
      var n := m[t][i].page;
      assert Reaches(m, root, Down(p, i), n);
      v := TableIsUsed(m, root, Down(p, i), n);
      assert v.Prefix(level + 1) == Down(v.Prefix(level), v.At(level));
    }
  }

  /** A table exists at a path exactly when some page is mapped through it. */
  lemma TableIffUsed(m: Memory, root: nat, p: Path)
    requires TreeShaped(m, root) && NoEmptyTable(m, root, Root) && p != Root
    ensures TableAt(m, root, p).Some? <==> Used(m, root, p)
  {
    if TableAt(m, root, p).Some? {
      var v := TableIsUsed(m, root, p, TableAt(m, root, p).value);
    }
    if v :| WalksVia(m, root, p, v) {
      assert Reaches(m, root, v.Prefix(0), root);
      WalkHasTables(m, root, v, Level(p), 0, root);
    }
  }

  /** Two trees with the same translations have tables at the same paths. */
  lemma SameWalksSamePaths(m: Memory, root: nat, m': Memory, root': nat, p: Path)
    requires TreeShaped(m, root) && NoEmptyTable(m, root, Root)
    requires TreeShaped(m', root') && NoEmptyTable(m', root', Root)
    requires forall v :: Walk(m', root', v) == Walk(m, root, v)
    ensures TableAt(m, root, p).Some? <==> TableAt(m', root', p).Some?
  {
    if p != Root {
      TableIffUsed(m, root, p);
      TableIffUsed(m', root', p);
      if Used(m, root, p) {
        var v :| WalksVia(m, root, p, v);
        assert WalksVia(m', root', p, v);
      }
      if Used(m', root', p) {
        var v :| WalksVia(m', root', p, v);
        assert WalksVia(m, root, p, v);
      }
    }
  }

  ghost function PathTo(m: Memory, root: nat, t: nat): Path
    requires t in Tables(m, root)
    ensures Reaches(m, root, PathTo(m, root, t), t)
  {
    var p :| Reaches(m, root, p, t);
    p
  }

  lemma {:induction false} ImageSize<S, T>(a: set<S>, f: S --> T, b: set<T>)
    requires forall x | x in a :: f.requires(x)
    requires forall x, y | x in a && y in a && f(x) == f(y) :: x == y
    requires forall x | x in a :: f(x) in b
    requires forall z | z in b :: exists x :: x in a && f(x) == z
    ensures |a| == |b|
    decreases a
  {
    if a == {} {
      if z :| z in b { assert false; }
    } else {
      var x :| x in a;
      var a', b' := a - {x}, b - {f(x)};
      forall z | z in b' ensures exists y :: y in a' && f(y) == z {
        var y :| y in a && f(y) == z;
        assert y in a';
      }
      ImageSize(a', f, b');
    }
  }

  /** Two trees with the same translations use the same number of tables. */
  lemma SameWalksSameSize(m: Memory, root: nat, m': Memory, root': nat)
    requires TreeShaped(m, root) && NoEmptyTable(m, root, Root)
    requires TreeShaped(m', root') && NoEmptyTable(m', root', Root)
    requires forall v :: Walk(m', root', v) == Walk(m, root, v)
    ensures |Tables(m', root')| == |Tables(m, root)|
  {
    var a, b := Tables(m, root), Tables(m', root');
    forall p ensures TableAt(m, root, p).Some? <==> TableAt(m', root', p).Some? {
      SameWalksSamePaths(m, root, m', root', p);
    }
    var f := (t: nat) requires t in a =>
      var r := TableAt(m', root', PathTo(m, root, t)); if r.Some? then r.value else 0;
    forall t | t in a ensures f(t) in b && Reaches(m', root', PathTo(m, root, t), f(t)) {
      assert Reaches(m', root', PathTo(m, root, t), f(t));
    }
    forall u | u in b ensures exists t :: t in a && f(t) == u {
      var p := PathTo(m', root', u);
      var t := TableAt(m, root, p).value;
      assert Reaches(m, root, p, t) && t in a;
      assert PathTo(m, root, t) == p;
      assert f(t) == u;
    }
    ImageSize(a, f, b);
  }
}
