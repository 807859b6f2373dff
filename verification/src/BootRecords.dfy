/** Boot information blocks written out from tag records, and what parsing them gives back. */
module BootRecords {
  import opened BootMap
  import opened Multiboot
  import opened BootTags

  datatype Region = Region(base: nat, length: nat, kind: nat)

  datatype Record =
    | MapRecord(entrySize: nat, regions: seq<Region>)
    | ModuleRecord(start: nat, end: nat, line: seq<Byte>)
    | OtherRecord(kind: nat, body: seq<Byte>)

  // ---- Little-endian numbers ----

  /** The n low bytes of a number. */
  function Encode(x: nat, n: nat): (b: seq<Byte>)
    ensures |b| == n
    decreases n
  {
    if n == 0 then [] else [(x % 0x100) as Byte] + Encode(x / 0x100, n - 1)
  }

  /** Reading back n bytes gives the number. */
  lemma {:induction false} DecodeEncode(a: seq<Byte>, x: nat, n: nat, c: seq<Byte>)
    requires x < Pow256(n)
    ensures Little(a + Encode(x, n) + c, |a|, |a| + n) == x
    decreases n
  {
    if n > 0 {
      var d: seq<Byte> := [(x % 0x100) as Byte];
      var rest := Encode(x / 0x100, n - 1);
      DecodeEncode(a + d, x / 0x100, n - 1, c);
      assert a + Encode(x, n) + c == a + d + rest + c;
    }
  }

  /** The bytes at a place are these. */
  predicate Holds(b: seq<Byte>, at: nat, x: seq<Byte>) {
    at + |x| <= |b| && b[at..at + |x|] == x
  }

  lemma Split(b: seq<Byte>, at: nat, x: seq<Byte>, y: seq<Byte>, mid: nat)
    requires Holds(b, at, x + y) && mid == at + |x|
    ensures Holds(b, at, x) && Holds(b, mid, y)
  {
    var z := b[at..at + |x + y|];
    assert b[at..mid] == z[..|x|] && b[mid..mid + |y|] == z[|x|..];
    assert z[..|x|] == x && z[|x|..] == y;
  }

  lemma ReadNumber(b: seq<Byte>, at: nat, x: nat, n: nat, end: nat)
    requires Holds(b, at, Encode(x, n)) && x < Pow256(n) && end == at + n
    ensures Little(b, at, end) == x
  {
    DecodeEncode(b[..at], x, n, b[end..]);
    assert b == b[..at] + Encode(x, n) + b[end..];
  }

  lemma Read32(b: seq<Byte>, at: nat, x: nat)
    requires Holds(b, at, Encode(x, 4)) && x < 0x1_0000_0000
    ensures U32(b, at) == x
  {
    assert Pow256(4) == 0x1_0000_0000;
    ReadNumber(b, at, x, 4, at + 4);
  }

  lemma Read64(b: seq<Byte>, at: nat, x: nat)
    requires Holds(b, at, Encode(x, 8)) && x < 0x1_0000_0000_0000_0000
    ensures U64(b, at) == x
  {
    assert Pow256(8) == 0x1_0000_0000_0000_0000;
    ReadNumber(b, at, x, 8, at + 8);
  }

  // ---- Blocks ----

  function Zeros(n: nat): (b: seq<Byte>)
    ensures |b| == n
  {
    seq(n, _ => 0)
  }

  function RegionBytes(r: Region, entrySize: nat): (b: seq<Byte>)
    requires entrySize >= 24
    ensures |b| == entrySize
  {
    Encode(r.base, 8) + Encode(r.length, 8) + Encode(r.kind, 4) + Zeros(entrySize - 20)
  }

  function RegionsBytes(rs: seq<Region>, entrySize: nat): seq<Byte>
    requires entrySize >= 24
  {
    if rs == [] then [] else RegionBytes(rs[0], entrySize) + RegionsBytes(rs[1..], entrySize)
  }

  predicate RegionOk(r: Region) {
    r.base < 0x1_0000_0000_0000_0000 && r.length < 0x1_0000_0000_0000_0000 && r.kind < 0x1_0000_0000
  }

  function KindOf(r: Record): nat {
    match r
    case MapRecord(_, _) => 6
    case ModuleRecord(_, _, _) => 3
    case OtherRecord(kind, _) => kind
  }

  function BodyOf(r: Record): seq<Byte>
    requires RecordOk(r)
  {
    match r
    case MapRecord(entrySize, regions) => Encode(entrySize, 4) + Zeros(4) + RegionsBytes(regions, entrySize)
    case ModuleRecord(start, end, line) => Encode(start, 4) + Encode(end, 4) + line
    case OtherRecord(_, body) => body
  }

  /** The fields fit their width; any entry size from 24 bytes on will do. */
  predicate RecordOk(r: Record) {
    match r
    case MapRecord(entrySize, regions) =>
      24 <= entrySize < 0x1_0000_0000 && forall i | 0 <= i < |regions| :: RegionOk(regions[i])
    case ModuleRecord(start, end, _) => start < 0x1_0000_0000 && end < 0x1_0000_0000
    case OtherRecord(kind, _) => kind < 0x1_0000_0000 && kind != 0 && kind != 3 && kind != 6
  }

  function SizeOf(r: Record): nat
    requires RecordOk(r)
  {
    8 + |BodyOf(r)|
  }

  /** Kind, size, body, and zeros up to a multiple of 8. */
  function TagBytes(r: Record): (b: seq<Byte>)
    requires RecordOk(r)
    ensures |b| == Padded(SizeOf(r))
  {
    Encode(KindOf(r), 4) + Encode(SizeOf(r), 4) + BodyOf(r) + Zeros(Padded(SizeOf(r)) - SizeOf(r))
  }

  predicate AllOk(rs: seq<Record>) {
    forall i | 0 <= i < |rs| :: RecordOk(rs[i]) && SizeOf(rs[i]) < 0x1_0000_0000
  }

  function TagsBytes(rs: seq<Record>): seq<Byte>
    requires AllOk(rs)
  {
    if rs == [] then [] else TagBytes(rs[0]) + TagsBytes(rs[1..])
  }

  /** The end tag. */
  function EndBytes(): seq<Byte> {
    Encode(0, 4) + Encode(8, 4)
  }

  /** The header with the total size, the tags, the end tag. */
  function Block(rs: seq<Record>): seq<Byte>
    requires AllOk(rs)
  {
    Encode(16 + |TagsBytes(rs)|, 4) + Zeros(4) + TagsBytes(rs) + EndBytes()
  }

  // ---- The ranges the records stand for ----

  function FreeRanges(rs: seq<Region>): seq<Action> {
    if rs == [] then []
    else (if rs[0].kind == 1 then [Free(rs[0].base, rs[0].length)] else []) + FreeRanges(rs[1..])
  }

  function RangesOf(r: Record): seq<Action> {
    match r
    case MapRecord(_, regions) => FreeRanges(regions)
    case ModuleRecord(start, end, _) => if start < end then [Take(start, end - start)] else []
    case OtherRecord(_, _) => []
  }

  function Ranges(rs: seq<Record>): seq<Action> {
    if rs == [] then [] else RangesOf(rs[0]) + Ranges(rs[1..])
  }

  // ---- Parsing gives the ranges back ----

  lemma RegionFields(b: seq<Byte>, at: nat, r: Region, entrySize: nat)
    requires entrySize >= 24 && Holds(b, at, RegionBytes(r, entrySize))
    ensures Holds(b, at, Encode(r.base, 8)) && Holds(b, at + 8, Encode(r.length, 8))
    ensures Holds(b, at + 16, Encode(r.kind, 4))
  {
    var b0, b1, b2, z := Encode(r.base, 8), Encode(r.length, 8), Encode(r.kind, 4), Zeros(entrySize - 20);
    Split(b, at, b0 + b1 + b2, z, at + 20);
    Split(b, at, b0 + b1, b2, at + 16);
    Split(b, at, b0, b1, at + 8);
  }

  lemma RegionParses(b: seq<Byte>, at: nat, r: Region, entrySize: nat)
    requires RegionOk(r) && entrySize >= 24 && Holds(b, at, RegionBytes(r, entrySize))
    ensures Entry(b, at) == if r.kind == 1 then [Free(r.base, r.length)] else []
  {
    RegionFields(b, at, r, entrySize);
    Read64(b, at, r.base);
    Read64(b, at + 8, r.length);
    Read32(b, at + 16, r.kind);
  }

  lemma RegionsSplit(b: seq<Byte>, at: nat, rs: seq<Region>, entrySize: nat, next: nat, end: nat)
    requires rs != [] && entrySize >= 24 && next == at + entrySize
    requires Holds(b, at, RegionsBytes(rs, entrySize)) && end == at + |RegionsBytes(rs, entrySize)|
    ensures Holds(b, at, RegionBytes(rs[0], entrySize)) && Holds(b, next, RegionsBytes(rs[1..], entrySize))
    ensures end == next + |RegionsBytes(rs[1..], entrySize)|
  {
    Split(b, at, RegionBytes(rs[0], entrySize), RegionsBytes(rs[1..], entrySize), next);
  }

  lemma {:induction false} RegionsParse(b: seq<Byte>, at: nat, rs: seq<Region>, entrySize: nat, end: nat)
    requires entrySize >= 24 && (forall i | 0 <= i < |rs| :: RegionOk(rs[i]))
    requires Holds(b, at, RegionsBytes(rs, entrySize)) && end == at + |RegionsBytes(rs, entrySize)|
    ensures Entries(b, at, end, entrySize) == FreeRanges(rs)
    decreases |rs|
  {
    if rs != [] {
      var next := at + entrySize;
      RegionsSplit(b, at, rs, entrySize, next, end);
      RegionParses(b, at, rs[0], entrySize);
      RegionsParse(b, next, rs[1..], entrySize, end);
      EntriesUnfold(b, at, next, end, entrySize);
    }
  }

  lemma TagFields(b: seq<Byte>, at: nat, r: Record)
    requires RecordOk(r) && Holds(b, at, TagBytes(r))
    ensures Holds(b, at, Encode(KindOf(r), 4)) && Holds(b, at + 4, Encode(SizeOf(r), 4)) && Holds(b, at + 8, BodyOf(r))
  {
    var k, s, body, z := Encode(KindOf(r), 4), Encode(SizeOf(r), 4), BodyOf(r), Zeros(Padded(SizeOf(r)) - SizeOf(r));
    Split(b, at, k + s + body, z, at + SizeOf(r));
    Split(b, at, k + s, body, at + 8);
    Split(b, at, k, s, at + 4);
  }

  predicate HeadIs(b: seq<Byte>, at: nat, kind: nat, size: nat) {
    && at + size <= |b| && size >= 8 && U32(b, at) == kind && U32(b, at + 4) == size
    && TagHere(b, at) && !Stops(b, at)
  }

  /** The head of a tag as the loops read it. */
  lemma HeadParses(b: seq<Byte>, at: nat, r: Record)
    requires RecordOk(r) && SizeOf(r) < 0x1_0000_0000 && Holds(b, at, TagBytes(r))
    ensures HeadIs(b, at, KindOf(r), SizeOf(r)) && NextAt(b, at) == at + |TagBytes(r)|
  {
    TagFields(b, at, r);
    Read32(b, at, KindOf(r));
    Read32(b, at + 4, SizeOf(r));
    StopsIff(b, at);
  }

  lemma MapFields(b: seq<Byte>, at: nat, r: Record, start: nat)
    requires r.MapRecord? && RecordOk(r) && Holds(b, at, BodyOf(r)) && start == at + 8
    ensures Holds(b, at, Encode(r.entrySize, 4)) && Holds(b, start, RegionsBytes(r.regions, r.entrySize))
    ensures SizeOf(r) == 16 + |RegionsBytes(r.regions, r.entrySize)|
  {
    var es, z, rs := Encode(r.entrySize, 4), Zeros(4), RegionsBytes(r.regions, r.entrySize);
    Split(b, at, es + z, rs, start);
    Split(b, at, es, z, at + 4);
  }

  lemma MapParses(b: seq<Byte>, at: nat, r: Record, size: nat)
    requires r.MapRecord? && RecordOk(r) && size == SizeOf(r) && HeadIs(b, at, 6, size) && Holds(b, at + 8, BodyOf(r))
    ensures TagActions(b, at) == FreeRanges(r.regions)
  {
    var start, end := at + 16, at + size;
    MapFields(b, at + 8, r, start);
    Read32(b, at + 8, r.entrySize);
    RegionsParse(b, start, r.regions, r.entrySize, end);
    MapEntries(b, at, start, end, r.entrySize);
  }

  lemma ModuleFields(b: seq<Byte>, at: nat, r: Record)
    requires r.ModuleRecord? && RecordOk(r) && Holds(b, at, BodyOf(r))
    ensures Holds(b, at, Encode(r.start, 4)) && Holds(b, at + 4, Encode(r.end, 4))
  {
    var s, e := Encode(r.start, 4), Encode(r.end, 4);
    Split(b, at, s + e, r.line, at + 8);
    Split(b, at, s, e, at + 4);
  }

  lemma ModuleParses(b: seq<Byte>, at: nat, r: Record, size: nat)
    requires r.ModuleRecord? && RecordOk(r) && size == SizeOf(r)
    requires HeadIs(b, at, 3, size) && Holds(b, at + 8, BodyOf(r))
    ensures TagActions(b, at) == RangesOf(r)
  {
    ModuleFields(b, at + 8, r);
    Read32(b, at + 8, r.start);
    Read32(b, at + 12, r.end);
  }

  lemma RecordParses(b: seq<Byte>, at: nat, r: Record)
    requires RecordOk(r) && SizeOf(r) < 0x1_0000_0000 && Holds(b, at, TagBytes(r))
    ensures !Stops(b, at) && NextAt(b, at) == at + |TagBytes(r)| && TagActions(b, at) == RangesOf(r)
  {
    HeadParses(b, at, r);
    TagFields(b, at, r);
    if r.MapRecord? { MapParses(b, at, r, SizeOf(r)); }
    if r.ModuleRecord? { ModuleParses(b, at, r, SizeOf(r)); }
  }

  lemma {:induction false} RecordsParse(b: seq<Byte>, at: nat, rs: seq<Record>, end: nat)
    requires AllOk(rs) && Holds(b, at, TagsBytes(rs)) && end == at + |TagsBytes(rs)| && Holds(b, end, EndBytes())
    ensures Parse(b, at) == Ranges(rs)
    decreases |rs|
  {
    if rs == [] {
      Split(b, at, Encode(0, 4), Encode(8, 4), at + 4);
      Read32(b, at, 0);
    } else {
      var first, rest := TagBytes(rs[0]), TagsBytes(rs[1..]);
      var next := at + |first|;
      Split(b, at, first, rest, next);
      RecordParses(b, at, rs[0]);
      RecordsParse(b, next, rs[1..], end);
      ParseUnfolds(b, at, next);
    }
  }

  /** Every list of tag records comes back from the block that holds it as exactly its ranges, in order. */
  lemma BlockParses(rs: seq<Record>)
    requires AllOk(rs)
    ensures Parse(Block(rs), TAG_SIZE) == Ranges(rs)
  {
    var b, head, tags := Block(rs), Encode(16 + |TagsBytes(rs)|, 4) + Zeros(4), TagsBytes(rs);
    assert Holds(b, 0, b);
    Split(b, 0, head + tags, EndBytes(), 8 + |tags|);
    Split(b, 0, head, tags, 8);
    RecordsParse(b, 8, rs, 8 + |tags|);
  }

  // ---- A module listed before the memory map ----

  /** A module at [0x200000, 0x201000) and then [0x100000, 0x1100000) as available. */
  const MODULE_FIRST: seq<Record> :=
    [ModuleRecord(0x200000, 0x201000, []), MapRecord(24, [Region(0x100000, 0x1000000, 1)])]

  lemma OneRegion(r: Region)
    requires r.kind == 1
    ensures |RegionsBytes([r], 24)| == 24 && FreeRanges([r]) == [Free(r.base, r.length)]
  {
    assert [r][1..] == [] && RegionsBytes([], 24) == [];
  }

  lemma TwoRecords(r: Record, m: Record)
    requires RecordOk(r) && RecordOk(m) && AllOk([r, m])
    ensures |TagsBytes([r, m])| == |TagBytes(r)| + |TagBytes(m)| && Ranges([r, m]) == RangesOf(r) + RangesOf(m)
  {
    assert [r, m][1..] == [m] && [m][1..] == [];
    assert TagsBytes([m]) == TagBytes(m) + TagsBytes([]) && Ranges([m]) == RangesOf(m) + Ranges([]);
  }

  lemma ModuleRecordOk(r: Record)
    requires r == ModuleRecord(0x200000, 0x201000, [])
    ensures RecordOk(r) && SizeOf(r) == 16 && RangesOf(r) == [Take(0x200000, 0x1000)]
  {
  }

  lemma MapRecordOk(m: Record, r: Region)
    requires r == Region(0x100000, 0x1000000, 1) && m == MapRecord(24, [r])
    ensures RecordOk(m) && SizeOf(m) == 40 && RangesOf(m) == [Free(0x100000, 0x1000000)]
  {
    OneRegion(r);
  }

  lemma ModuleFirstOk()
    ensures AllOk(MODULE_FIRST) && Ranges(MODULE_FIRST) == [Take(0x200000, 0x1000), Free(0x100000, 0x1000000)]
    ensures |Block(MODULE_FIRST)| == 72
  {
    var r, m := MODULE_FIRST[0], MODULE_FIRST[1];
    ModuleRecordOk(r);
    MapRecordOk(m, m.regions[0]);
    TwoRecords(r, m);
    assert MODULE_FIRST == [r, m];
  }

  lemma ModuleFirstMeans(b: seq<Byte>)
    requires Parse(b, 8) == [Take(0x200000, 0x1000), Free(0x100000, 0x1000000)]
    ensures GivenFrom(b, 8, 0x200) && OccupiedFrom(b, 8, 0x200)
    ensures Highest(Parse(b, 8), 0) == 0x1100000
  {
    var tags := Parse(b, 8);
    TagsMean(b, 8, 0x200);
    assert TakesAt(tags, 0x200, 0) && FreesAt(tags, 0x200, 1);
    assert forall j :: TakesAt(tags, 0x200, j) ==> j < 1;
    assert tags[1..] == [Free(0x100000, 0x1000000)];
    assert Highest(tags, 0) == Highest(tags[1..], 0x201000) == 0x1100000;
  }

  lemma NotKept(k: Kernel, base: nat, bytes: nat, info: nat, total: nat)
    requires k == Kernel(0x400000, 0x500000) && base == 0x500000 && info == 0x10000 && total == 72
    ensures !KeptFrame(0x200, k, base, bytes, info, total)
  {
    PageBytes(0x200);
  }

  /** A module listed before the memory map is handed out: its frame ends up free, and should not be. */
  lemma ModuleBeforeMapIsFreed()
    ensures AllOk(MODULE_FIRST)
    ensures
      var b, k := Block(MODULE_FIRST), Kernel(0x400000, 0x500000);
      && IsBitmapBase(0x500000, 0x10000, |b|, k) && IsLimit(b, 0x1100)
      && BootFrees(0x10000, b, k, 0x500000, 0x1100, 0x200) && !ShouldBeFree(0x10000, b, k, 0x500000, 0x1100, 0x200)
  {
    ModuleFirstOk();
    var b, k := Block(MODULE_FIRST), Kernel(0x400000, 0x500000);
    BlockParses(MODULE_FIRST);
    ModuleFirstMeans(b);
    HighestMeans(b);
    NotKept(k, 0x500000, BitmapSize(0x1100), 0x10000, |b|);
  }

  /** The same block under a kernel that ends where its module starts: the bitmap is written over the module. */
  lemma ModuleBehindKernelIsOverwritten()
    ensures AllOk(MODULE_FIRST)
    ensures
      var b, k := Block(MODULE_FIRST), Kernel(0x100000, 0x200000);
      IsBitmapBase(0x200000, 0x10000, |b|, k) && exists at: nat :: TagFrom(b, 8, at) && Loads(b, at, 0x200000, 0x201000)
  {
    ModuleFirstOk();
    var b := Block(MODULE_FIRST);
    BlockParses(MODULE_FIRST);
    assert Take(0x200000, 0x1000) in Parse(b, 8);
    TagsHold(b, 8, Take(0x200000, 0x1000));
  }
}
