/** Splitting a path into components. */
module Paths {
  import opened Common

  const NAME_MAX: nat := 64

  /** The length of the run of characters, from k on, that are (or are not) slashes. */
  function RunEnd(path: string, k: nat, slash: bool): (r: nat)
    requires k <= |path|
    ensures k <= r <= |path|
    ensures r < |path| ==> (path[r] == '/') != slash
    decreases |path| - k
  {
    if k < |path| && (path[k] == '/') == slash then RunEnd(path, k + 1, slash) else k
  }

  /** The run is of one kind of character. */
  lemma {:induction false} RunIsUniform(path: string, k: nat, slash: bool)
    requires k <= |path|
    ensures forall i | k <= i < RunEnd(path, k, slash) :: (path[i] == '/') == slash
    decreases |path| - k
  {
    if k < |path| && (path[k] == '/') == slash { RunIsUniform(path, k + 1, slash); }
  }

  function Truncate(name: string): string {
    if |name| >= NAME_MAX then name[..NAME_MAX - 1] else name
  }

  /** The components of a path from k on: maximal runs of characters other than '/', each cut to 63. */
  function Components(path: string, k: nat): seq<string>
    requires k <= |path|
    decreases |path| - k
  {
    var a := RunEnd(path, k, true);
    if a == |path| then []
    else
      var b := RunEnd(path, a, false);
      [Truncate(path[a..b])] + Components(path, b)
  }

  /** A name fs_path_split can produce. */
  predicate IsName(name: string) {
    0 < |name| < NAME_MAX && forall i | 0 <= i < |name| :: name[i] != '/'
  }

  lemma {:induction false} ComponentsAreNames(path: string, k: nat)
    requires k <= |path|
    ensures forall i | 0 <= i < |Components(path, k)| :: IsName(Components(path, k)[i])
    decreases |path| - k
  {
    var a := RunEnd(path, k, true);
    if a < |path| {
      var b := RunEnd(path, a, false);
      assert a < b;
      var name, rest := Truncate(path[a..b]), Components(path, b);
      ComponentsAreNames(path, b);
      RunIsUniform(path, a, false);
      assert IsName(name);
      forall i | 0 <= i < |[name] + rest| ensures IsName(([name] + rest)[i]) {
        assert i > 0 ==> ([name] + rest)[i] == rest[i - 1];
      }
    }
  }

  datatype Stretch = Stretch(a: nat, b: nat)

  /** A maximal run of characters other than slashes. */
  predicate Maximal(path: string, r: Stretch) {
    && r.a < r.b <= |path| && (forall i | r.a <= i < r.b :: path[i] != '/')
    && (r.a > 0 ==> path[r.a - 1] == '/') && (r.b < |path| ==> path[r.b] == '/')
  }

  /** The part of a run that fits a name: 63 characters. */
  function Cut(path: string, r: Stretch): string
    requires Maximal(path, r)
  {
    path[r.a..if r.b - r.a < 64 then r.b else r.a + 63]
  }

  /** These are the maximal runs from k on, in order, and the parts are what fits of them. */
  ghost predicate Lists(path: string, k: nat, runs: seq<Stretch>, parts: seq<string>) {
    && |runs| == |parts|
    && (forall i | 0 <= i < |runs| :: k <= runs[i].a && Maximal(path, runs[i]) && parts[i] == Cut(path, runs[i]))
    && (forall i, j | 0 <= i < j < |runs| :: runs[i].b < runs[j].a)
    && (forall r | Maximal(path, r) && r.a >= k :: r in runs)
  }

  lemma NoRunIn(path: string, k: nat, a: nat, r: Stretch)
    requires k <= a <= |path| && (forall i | k <= i < a :: path[i] == '/') && Maximal(path, r) && r.a >= k
    ensures r.a >= a
  {
    assert path[r.a] != '/';
  }

  lemma OneRunAt(path: string, r: Stretch, q: Stretch)
    requires Maximal(path, r) && Maximal(path, q) && r.a <= q.a < r.b
    ensures q == r
  {
  }

  /** The components of a path are its maximal runs of other characters than slashes, all of them and in order, each
      cut to 63 characters. */
  lemma {:induction false} ComponentsAreRuns(path: string, k: nat) returns (runs: seq<Stretch>)
    requires k <= |path| && (0 < k < |path| ==> path[k] == '/')
    ensures Lists(path, k, runs, Components(path, k))
    decreases |path| - k
  {
    var a := RunEnd(path, k, true);
    RunIsUniform(path, k, true);
    forall r | Maximal(path, r) && r.a >= k ensures r.a >= a { NoRunIn(path, k, a, r); }
    if a == |path| {
      runs := [];
    } else {
      var b := RunEnd(path, a, false);
      RunIsUniform(path, a, false);
      var first := Stretch(a, b);
      assert Maximal(path, first);
      var rest := ComponentsAreRuns(path, b);
      FirstRun(path, k, first, rest, Components(path, b));
      runs := [first] + rest;
    }
  }

  lemma FirstRun(path: string, k: nat, first: Stretch, rest: seq<Stretch>, parts: seq<string>)
    requires Maximal(path, first) && k <= first.a && Lists(path, first.b, rest, parts)
    requires forall r | Maximal(path, r) && r.a >= k :: r.a >= first.a
    ensures Lists(path, k, [first] + rest, [Truncate(path[first.a..first.b])] + parts)
  {
    var runs, all := [first] + rest, [Truncate(path[first.a..first.b])] + parts;
    assert Truncate(path[first.a..first.b]) == Cut(path, first);
    forall i, j | 0 <= i < j < |runs| ensures runs[i].b < runs[j].a {
      assert runs[j] == rest[j - 1];
      if i == 0 && rest[j - 1].a == first.b { assert path[first.b] == '/'; }
    }
    forall r | Maximal(path, r) && r.a >= k ensures r in runs {
      if r.a < first.b { OneRunAt(path, first, r); } else { assert r in rest; }
    }
  }

  /** The path that names a list of components. */
  function Join(parts: seq<string>): string {
    if parts == [] then "" else "/" + parts[0] + Join(parts[1..])
  }

  lemma {:induction false} RunEndIs(path: string, k: nat, r: nat, slash: bool)
    requires k <= r <= |path| && (forall i | k <= i < r :: (path[i] == '/') == slash)
    requires r < |path| ==> (path[r] == '/') != slash
    ensures RunEnd(path, k, slash) == r
    decreases r - k
  {
    if k < r { RunEndIs(path, k + 1, r, slash); }
  }

  lemma JoinFirst(parts: seq<string>)
    requires parts != []
    ensures
      var s, name := Join(parts), parts[0];
      && |s| >= 1 + |name| && s[0] == '/' && s[1..1 + |name|] == name && s[1 + |name|..] == Join(parts[1..])
  {
    var name, rest := parts[0], Join(parts[1..]);
    assert Join(parts) == "/" + name + rest;
  }

  lemma JoinStarts(parts: seq<string>)
    ensures Join(parts) != "" ==> Join(parts)[0] == '/'
  {
    if parts != [] { JoinFirst(parts); }
  }

  lemma SliceOfSuffix(s: string, k: nat, a: nat, b: nat)
    requires k <= |s| && a <= b <= |s| - k
    ensures s[k..][a..b] == s[k + a..k + b] && s[k..][b..] == s[k + b..]
  {
  }

  /** A slash at k followed by a name that ends at a slash or at the end of the path. */
  predicate NameAt(path: string, k: nat, name: string) {
    var b := k + 1 + |name|;
    && IsName(name) && b <= |path| && path[k] == '/' && path[k + 1..b] == name
    && (b < |path| ==> path[b] == '/')
  }

  lemma FirstComponent(path: string, k: nat, name: string)
    requires NameAt(path, k, name)
    ensures RunEnd(path, k, true) == k + 1 && RunEnd(path, k + 1, false) == k + 1 + |name|
  {
    var b := k + 1 + |name|;
    forall i | k + 1 <= i < b ensures path[i] != '/' { assert path[i] == name[i - k - 1]; }
    RunEndIs(path, k, k + 1, true);
    RunEndIs(path, k + 1, b, false);
  }

  lemma ComponentsFrom(path: string, k: nat, name: string)
    requires NameAt(path, k, name)
    ensures Components(path, k) == [name] + Components(path, k + 1 + |name|)
  {
    FirstComponent(path, k, name);
    var a, b := k + 1, k + 1 + |name|;
    assert Truncate(path[a..b]) == name;
  }

  lemma NameOfJoin(path: string, k: nat, parts: seq<string>)
    requires k <= |path| && path[k..] == Join(parts) && parts != [] && IsName(parts[0])
    ensures NameAt(path, k, parts[0]) && path[k + 1 + |parts[0]|..] == Join(parts[1..])
  {
    var n := 1 + |parts[0]|;
    JoinFirst(parts);
    JoinStarts(parts[1..]);
    SliceOfSuffix(path, k, 1, n);
    assert path[k] == path[k..][0];
    assert k + n < |path| ==> path[k + n] == path[k + n..][0];
  }

  predicate AllNames(parts: seq<string>) {
    parts == [] || (IsName(parts[0]) && AllNames(parts[1..]))
  }

  lemma NoComponents(path: string)
    ensures Components(path, |path|) == []
  {
  }

  lemma FirstAndRest(parts: seq<string>, name: string, rest: seq<string>)
    requires parts != [] && parts[0] == name && parts[1..] == rest
    ensures [name] + rest == parts
  {
  }

  /** From k on the path is a slash and a name for each part. */
  predicate JoinedAt(path: string, k: nat, parts: seq<string>)
    decreases |parts|
  {
    if parts == [] then k == |path|
    else NameAt(path, k, parts[0]) && JoinedAt(path, k + 1 + |parts[0]|, parts[1..])
  }

  lemma {:induction false} JoinIsJoined(path: string, k: nat, parts: seq<string>)
    requires k <= |path| && path[k..] == Join(parts) && AllNames(parts)
    ensures JoinedAt(path, k, parts)
    decreases |parts|
  {
    if parts != [] {
      NameOfJoin(path, k, parts);
      JoinIsJoined(path, k + 1 + |parts[0]|, parts[1..]);
    }
  }

  lemma {:induction false} JoinedSplits(path: string, k: nat, parts: seq<string>)
    requires k <= |path| && JoinedAt(path, k, parts)
    ensures Components(path, k) == parts
    decreases |parts|
  {
    if parts == [] {
      NoComponents(path);
    } else {
      ComponentsFrom(path, k, parts[0]);
      JoinedSplits(path, k + 1 + |parts[0]|, parts[1..]);
      FirstAndRest(parts, parts[0], parts[1..]);
    }
  }

  /** Splitting undoes joining, from any place in a path on. */
  lemma SplitUndoesJoin(path: string, k: nat, parts: seq<string>)
    requires k <= |path| && path[k..] == Join(parts) && AllNames(parts)
    ensures Components(path, k) == parts
  {
    JoinIsJoined(path, k, parts);
    JoinedSplits(path, k, parts);
  }

  method SkipSlashes(path: string, k: nat) returns (i: nat)
    requires k <= |path|
    ensures i == RunEnd(path, k, true)
  {
    i := k;
    while i < |path| && path[i] == '/'
      invariant k <= i <= |path| && RunEnd(path, k, true) == RunEnd(path, i, true)
    {
      i := i + 1;
    }
  }

  lemma SliceOfSlice(s: string, k: nat, mid: nat, end: nat)
    requires k <= mid <= end <= |s|
    ensures s[k..end][..mid - k] == s[k..mid]
  {
  }

  /** The copy loop of fs_path_split and the loop that skips what does not fit. */
  method TakeName(path: string, k: nat) returns (name: string, i: nat)
    requires k <= |path|
    ensures i == RunEnd(path, k, false) && name == Truncate(path[k..i])
  {
    i, name := k, "";
    while i < |path| && path[i] != '/' && |name| + 1 < NAME_MAX
      invariant k <= i <= |path| && |name| == i - k < NAME_MAX && name == path[k..i]
      invariant RunEnd(path, k, false) == RunEnd(path, i, false)
    {
      name := name + [path[i]];
      i := i + 1;
    }
    ghost var cut := i;
    while i < |path| && path[i] != '/'
      invariant cut <= i <= |path| && RunEnd(path, k, false) == RunEnd(path, i, false)
      invariant i > cut ==> cut - k == NAME_MAX - 1
    {
      i := i + 1;
    }
    SliceOfSlice(path, k, cut, i);
  }

  /** One component moves from what is left to what is split off. */
  lemma SplitRound(path: string, i: nat, parts: seq<string>)
    requires i <= |path| && RunEnd(path, i, true) < |path|
    ensures
      var a := RunEnd(path, i, true);
      var b := RunEnd(path, a, false);
      parts + [Truncate(path[a..b])] + Components(path, b) == parts + Components(path, i)
  {
    var a := RunEnd(path, i, true);
    var b := RunEnd(path, a, false);
    assert Components(path, i) == [Truncate(path[a..b])] + Components(path, b);
  }

  /** fs_path_split: the components, or failure when there are more than maxParts. */
  method SplitPath(path: string, maxParts: int) returns (ret: int, parts: seq<string>)
    ensures ret == if maxParts > 0 && |Components(path, 0)| <= maxParts then |Components(path, 0)| else EFAIL
    ensures ret >= 0 ==> parts == Components(path, 0)
  {
    parts := [];
    if maxParts <= 0 { return EFAIL, parts; }
    var i: nat := 0;
    ghost var all := Components(path, 0);
    while i < |path|
      invariant i <= |path| && |parts| <= maxParts && parts + Components(path, i) == all
      decreases |path| - i
    {
      var a := SkipSlashes(path, i);
      if a == |path| { break; }
      if |parts| >= maxParts { return EFAIL, parts; }
      var name, b := TakeName(path, a);
      SplitRound(path, i, parts);
      parts, i := parts + [name], b;
    }
    assert Components(path, i) == [];
    return |parts|, parts;
  }
}
