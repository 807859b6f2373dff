/** What several parts of the kernel share: machine limits, the general error, searches and small set facts. */
module Common {

  const TWO32: nat := 0x1_0000_0000
  const TWO63: nat := 0x8000_0000_0000_0000
  const TWO64: nat := 0x1_0000_0000_0000_0000

  /** NM_ERR(NM_EFAIL). */
  const EFAIL: int := -1

  function Min(a: nat, b: nat): nat {
    if a < b then a else b
  }

  /** The first index at or after k whose element satisfies p, or the length. */
  function FirstFrom<T>(xs: seq<T>, p: T -> bool, k: nat): (r: nat)
    requires k <= |xs|
    ensures k <= r <= |xs|
    ensures forall i | k <= i < r :: !p(xs[i])
    ensures r < |xs| ==> p(xs[r])
    decreases |xs| - k
  {
    if k == |xs| || p(xs[k]) then k else FirstFrom(xs, p, k + 1)
  }

  /** How many steps forward from `start`, wrapping at n, until `g`. */
  function Distance(start: nat, g: nat, n: nat): int {
    if g >= start then g - start else g + n - start
  }

  ghost function Elements(s: seq<nat>): set<nat> {
    set x | x in s
  }

  lemma JoinsSame<T>(a: seq<T>, b: seq<T>, c: seq<T>)
    ensures a + (b + c) == a + b + c
  {
  }

  lemma {:induction false} ElementsSize(s: seq<nat>)
    requires forall i, j | 0 <= i < j < |s| :: s[i] != s[j]
    ensures |Elements(s)| == |s|
  {
    if s != [] {
      var n := |s| - 1;
      ElementsSize(s[..n]);
      assert Elements(s) == Elements(s[..n]) + {s[n]};
      assert s[n] !in s[..n];
    }
  }

  lemma {:induction false} SubsetSize<T>(a: set<T>, b: set<T>)
    requires a <= b
    ensures |a| <= |b|
  {
    assert b == a + (b - a);
    assert |b| == |a| + |b - a|;
  }
}
