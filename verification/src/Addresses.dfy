/** What the page tables make of an address, and what the calls on addresses do to it. */
module Addresses {
  import opened PageTables
  import opened Spaces

  /** The number of the page of an address, of the 2^36 that four levels tell apart. */
  function PageNumber(a: nat): nat {
    a % 0x1_0000_0000_0000 / 4096
  }

  /** The number of the 2 MiB block of an address. */
  function BlockNumber(a: nat): nat {
    a % 0x1_0000_0000_0000 / 0x20_0000
  }

  /** The leaf entry of a 4 KiB map. */
  function PageEntry(phys: nat, flags: Flags): Entry {
    Entry(phys / 4096, flags.(present := true))
  }

  /** The entry of a 2 MiB map: the address is rounded down to its 2 MiB boundary. */
  function LargeEntry(phys: nat, flags: Flags): Entry {
    Entry(phys / 0x20_0000 * 512, flags.(present := true, ps := true))
  }

  /** The physical address the hardware goes to, sections 4.5.2 to 4.5.4 of the Intel SDM, Volume 3A: the offset has
      12, 21 or 30 bits by the level the walk ends at. */
  function Translate(m: Memory, root: nat, a: nat): Option<nat> {
    match Walk(m, root, PageOf(a))
    case None => None
    case Some(leaf) =>
      if leaf.level == 3 then Some(leaf.entry.page * 4096 + a % 4096)
      else if leaf.level == 2 then Some(leaf.entry.page / 512 * 0x20_0000 + a % 0x20_0000)
      else Some(leaf.entry.page / 0x4_0000 * 0x4000_0000 + a % 0x4000_0000)
  }

  /** Two digits of a number to a base, here 2^18. */
  lemma TwoDigits(p: nat, q: nat, r: nat, h: nat, l: nat)
    requires p == q * 0x4_0000 + r && r < 0x4_0000 && q == h * 0x4_0000 + l && l < 0x4_0000
    ensures p % 0x10_0000_0000 == l * 0x4_0000 + r
  {
    assert p == h * 0x10_0000_0000 + (l * 0x4_0000 + r);
  }

  lemma HalfDigits(p: nat)
    ensures p % 0x4_0000 == p / 512 % 512 * 512 + p % 512
  {
    var q := p / 512;
    var h, l, r := q / 512, q % 512, p % 512;
    assert p == q * 512 + r && q == h * 512 + l;
    assert p == h * 0x4_0000 + (l * 512 + r);
  }

  /** Dropping 12 bits and then more is dropping them at once. */
  lemma DropTwice(a: nat, p: nat, r: nat, n: nat, k: nat, h: nat, l: nat)
    requires a == p * 4096 + r && r < 4096 && p == h * n + l && l < n && k == n * 4096
    ensures a / k == h && a % k == l * 4096 + r
  {
    assert h * k == h * n * 4096;
    assert l * 4096 + r < k;
    DivModIs(a, k, h, l * 4096 + r);
  }

  lemma NextMultiple(x: nat, y: nat, k: nat)
    ensures x < y ==> (x + 1) * k <= y * k
  {
  }

  lemma DivModIs(a: nat, k: nat, h: nat, r: nat)
    requires k > 0 && a == h * k + r && r < k
    ensures a / k == h && a % k == r
  {
    var q := a / k;
    assert a == q * k + a % k;
    NextMultiple(q, h, k);
    NextMultiple(h, q, k);
  }

  lemma Quotients(a: nat, p: nat)
    requires p == a / 4096
    ensures a % 0x1_0000_0000_0000 / 4096 == p % 0x10_0000_0000
    ensures a / 0x20_0000 == p / 512 && a / 0x4000_0000 == p / 0x4_0000 && a / 0x80_0000_0000 == p / 0x800_0000
  {
    var r := a % 4096;
    DropTwice(a, p, r, 0x10_0000_0000, 0x1_0000_0000_0000, p / 0x10_0000_0000, p % 0x10_0000_0000);
    DropTwice(a, p, r, 512, 0x20_0000, p / 512, p % 512);
    DropTwice(a, p, r, 0x4_0000, 0x4000_0000, p / 0x4_0000, p % 0x4_0000);
    DropTwice(a, p, r, 0x800_0000, 0x80_0000_0000, p / 0x800_0000, p % 0x800_0000);
  }

  lemma TopDigit(p: nat, q: nat)
    requires q == p / 0x4_0000
    ensures p / 0x800_0000 == q / 512
  {
    var r, h, l := p % 0x4_0000, q / 512, q % 512;
    assert p == q * 0x4_0000 + r && q == h * 512 + l;
    assert p == h * 0x800_0000 + (l * 0x4_0000 + r);
  }

  /** The four indices are the digits of the page number to the base 512, the first the highest. */
  lemma PageOfIs(a: nat)
    ensures DigitsAre(PageOf(a), PageNumber(a))
  {
    var p := a / 4096;
    var q := p / 0x4_0000;
    Quotients(a, p);
    TopDigit(p, q);
    TwoDigits(p, q, p % 0x4_0000, q / 0x4_0000, q % 0x4_0000);
    HalfDigits(p);
    HalfDigits(q);
  }

  predicate DigitsAre(v: VPage, n: nat) {
    n == v.i0 * 0x800_0000 + v.i1 * 0x4_0000 + v.i2 * 512 + v.i3
  }

  lemma BlockOfPage(a: nat)
    ensures BlockNumber(a) == PageNumber(a) / 512
  {
  }

  lemma SameDigits(v: VPage, x: nat, w: VPage, y: nat)
    requires DigitsAre(v, x) && DigitsAre(w, y)
    ensures x == y <==> v == w
    ensures x / 512 == y / 512 <==> v.i0 == w.i0 && v.i1 == w.i1 && v.i2 == w.i2
  {
    var x', y' := v.i0 * 0x4_0000 + v.i1 * 512 + v.i2, w.i0 * 0x4_0000 + w.i1 * 512 + w.i2;
    assert x == x' * 512 + v.i3 && y == y' * 512 + w.i3;
    assert x / 512 == x' && y / 512 == y';
  }

  lemma SamePage(a: nat, b: nat)
    ensures PageOf(a) == PageOf(b) <==> PageNumber(a) == PageNumber(b)
  {
    PageOfIs(a);
    PageOfIs(b);
    SameDigits(PageOf(a), PageNumber(a), PageOf(b), PageNumber(b));
  }

  lemma PrefixIs(v: VPage)
    ensures v.Prefix(3) == Down(Down(Down(Root, v.i0), v.i1), v.i2)
  {
    assert v.Prefix(1) == Down(Root, v.i0);
    assert v.Prefix(2) == Down(v.Prefix(1), v.i1);
  }

  lemma SameBlock(a: nat, b: nat)
    ensures PageOf(a).Prefix(3) == PageOf(b).Prefix(3) <==> BlockNumber(a) == BlockNumber(b)
  {
    var v, w := PageOf(a), PageOf(b);
    PageOfIs(a);
    PageOfIs(b);
    BlockOfPage(a);
    BlockOfPage(b);
    SameDigits(v, PageNumber(a), w, PageNumber(b));
    PrefixIs(v);
    PrefixIs(w);
  }

  /** The leaf an address ends at has these flags. */
  predicate HasFlags(m: Memory, root: nat, a: nat, flags: Flags) {
    var leaf := Walk(m, root, PageOf(a));
    leaf.Some? && leaf.value.entry.flags == flags
  }

  /** Where the bytes of one page go once it is mapped, and every other byte. */
  function AfterMap(m: Memory, root: nat, virt: nat, phys: nat, a: nat): Option<nat> {
    if PageNumber(a) == PageNumber(virt) then Some(phys / 4096 * 4096 + a % 4096) else Translate(m, root, a)
  }

  function AfterLargeMap(m: Memory, root: nat, virt: nat, phys: nat, a: nat): Option<nat> {
    if BlockNumber(a) == BlockNumber(virt) then Some(phys / 0x20_0000 * 0x20_0000 + a % 0x20_0000)
    else Translate(m, root, a)
  }

  function AfterUnmap(m: Memory, root: nat, virt: nat, a: nat): Option<nat> {
    if PageNumber(a) == PageNumber(virt) then None else Translate(m, root, a)
  }

  /** The bytes of one page go to the page of phys, with the flags asked for; every other address stays. */
  ghost predicate MapsAddress(m: Memory, m': Memory, root: nat, virt: nat, phys: nat, flags: Flags) {
    && HasFlags(m', root, virt, Flags(true, flags.rw, flags.us, flags.ps, flags.other))
    && forall a: nat :: Translate(m', root, a) == AfterMap(m, root, virt, phys, a)
  }

  /** The bytes of one 2 MiB block go to the block of phys, with the flags asked for; every other address stays. */
  ghost predicate MapsBlock(m: Memory, m': Memory, root: nat, virt: nat, phys: nat, flags: Flags) {
    && HasFlags(m', root, virt, Flags(true, flags.rw, flags.us, true, flags.other))
    && forall a: nat :: Translate(m', root, a) == AfterLargeMap(m, root, virt, phys, a)
  }

  /** The bytes of one page go nowhere; every other address stays. */
  ghost predicate UnmapsAddress(m: Memory, m': Memory, root: nat, virt: nat) {
    forall a: nat :: Translate(m', root, a) == AfterUnmap(m, root, virt, a)
  }

  lemma PageAt(m: Memory, m': Memory, root: nat, virt: nat, phys: nat, flags: Flags, a: nat)
    requires Walk(m', root, PageOf(virt)) == Some(Leaf(PageEntry(phys, flags), 3))
    requires PageOf(a) != PageOf(virt) ==> Walk(m', root, PageOf(a)) == Walk(m, root, PageOf(a))
    ensures Translate(m', root, a) == AfterMap(m, root, virt, phys, a)
  {
    SamePage(a, virt);
  }

  /** A map of a page to an entry is a map of its addresses. */
  lemma MapTranslates(s: Space, s': Space, root: nat, virt: nat, phys: nat, flags: Flags)
    requires MapsPage(s, s', root, PageOf(virt), PageEntry(phys, flags))
    ensures MapsAddress(s.mem, s'.mem, root, virt, phys, flags)
  {
    forall a: nat ensures Translate(s'.mem, root, a) == AfterMap(s.mem, root, virt, phys, a) {
      PageAt(s.mem, s'.mem, root, virt, phys, flags, a);
    }
  }

  /** The page of a 2 MiB entry is the first of its block. */
  lemma BlockStart(x: nat)
    ensures x / 0x20_0000 * 512 / 512 * 0x20_0000 == x / 0x20_0000 * 0x20_0000
  {
  }

  lemma BlockAt(m: Memory, m': Memory, root: nat, virt: nat, phys: nat, flags: Flags, a: nat)
    requires PageOf(a).Prefix(3) == PageOf(virt).Prefix(3) ==>
      Walk(m', root, PageOf(a)) == Some(Leaf(LargeEntry(phys, flags), 2))
    requires PageOf(a).Prefix(3) != PageOf(virt).Prefix(3) ==> Walk(m', root, PageOf(a)) == Walk(m, root, PageOf(a))
    ensures Translate(m', root, a) == AfterLargeMap(m, root, virt, phys, a)
  {
    SameBlock(a, virt);
    BlockStart(phys);
  }

  lemma LargeMapTranslates(s: Space, s': Space, root: nat, virt: nat, phys: nat, flags: Flags)
    requires MapsLarge(s, s', root, PageOf(virt), LargeEntry(phys, flags))
    ensures MapsBlock(s.mem, s'.mem, root, virt, phys, flags)
  {
    forall a: nat ensures Translate(s'.mem, root, a) == AfterLargeMap(s.mem, root, virt, phys, a) {
      BlockAt(s.mem, s'.mem, root, virt, phys, flags, a);
    }
  }

  lemma GoneAt(m: Memory, m': Memory, root: nat, virt: nat, a: nat)
    requires Walk(m', root, PageOf(virt)) == None
    requires PageOf(a) != PageOf(virt) ==> Walk(m', root, PageOf(a)) == Walk(m, root, PageOf(a))
    ensures Translate(m', root, a) == AfterUnmap(m, root, virt, a)
  {
    SamePage(a, virt);
  }

  lemma UnmapTranslates(s: Space, s': Space, root: nat, virt: nat)
    requires UnmapsPage(s, s', root, PageOf(virt))
    ensures UnmapsAddress(s.mem, s'.mem, root, virt)
  {
    forall a: nat ensures Translate(s'.mem, root, a) == AfterUnmap(s.mem, root, virt, a) {
      GoneAt(s.mem, s'.mem, root, virt, a);
    }
  }
}
