/** One call on an address space, as its locked section and the frames drawn and freed around it leave
    memory; and that every call keeps the address space owned. */
module VmmSteps {
  import opened Common
  import opened PageTables
  import opened Spaces
  import opened Mapping

  /** The calls on an address space, with their leaf entries. */
  datatype Call = Map(v: VPage, e: Entry) | MapLarge(v: VPage, e: Entry) | Unmap(v: VPage)

  /** What a caller must know before a call. */
  ghost predicate Allowed(s: Space, root: nat, call: Call) {
    match call
    case Map(v, e) => Present(e) && !UnderLarge(s.mem, root, v)
    case MapLarge(v, e) => Present(e) && Large(e) && TableAt(s.mem, root, v.Prefix(3)) == None
    case Unmap(_) => true
  }

  /** vmm_map_page_in with this pool, whose tables were zeroed in memory m. */
  ghost predicate MapsBy(s: Space, s': Space, root: nat, v: VPage, e: Entry, m: Memory, pool: seq<nat>) {
    PoolDrawn(s, m, pool) && |pool| == 3 && s' == Settle(s, pool, MapLocked(m, root, v, e, pool))
  }

  /** vmm_map_2m_in with this pool. */
  ghost predicate MapsLargeBy(s: Space, s': Space, root: nat, v: VPage, e: Entry, m: Memory, pool: seq<nat>) {
    PoolDrawn(s, m, pool) && |pool| == 2 && s' == Settle(s, pool, MapLargeLocked(m, root, v, e, pool))
  }

  /** vmm_unmap_page_in along these tables. */
  ghost predicate UnmapsBy(s: Space, s': Space, root: nat, v: VPage, c: Chain) {
    && Follows(s.mem, root, v, c, 3) && c.In(s.mem)
    && var r := Collapse(Put(s.mem, c.pt, v.i3, ZERO), v, c, 3);
       s' == Space(r.mem, s.free + Elements(r.freed))
  }

  /** One call with its result. A map draws its tables first and fails exactly when it cannot. */
  ghost predicate Step(s: Space, s': Space, root: nat, call: Call, ok: bool) {
    && Allowed(s, root, call)
    && match call
       case Map(v, e) =>
         && (ok <==> |s.free| >= 3)
         && (if ok then exists m, pool :: MapsBy(s, s', root, v, e, m, pool) else KeepsAll(s, s'))
       case MapLarge(v, e) =>
         && (ok <==> |s.free| >= 2)
         && (if ok then exists m, pool :: MapsLargeBy(s, s', root, v, e, m, pool) else KeepsAll(s, s'))
       case Unmap(v) =>
         && (ok <==> TableAt(s.mem, root, v.Prefix(3)).Some?)
         && (if ok then exists c :: UnmapsBy(s, s', root, v, c) else s' == s)
  }

  /** What a call does, said of walks and frames. */
  ghost predicate Effect(s: Space, s': Space, root: nat, call: Call, ok: bool) {
    if !ok then KeepsAll(s, s')
    else
      match call
      case Map(v, e) => MapsPage(s, s', root, v, e)
      case MapLarge(v, e) => MapsLarge(s, s', root, v, e)
      case Unmap(v) => UnmapsPage(s, s', root, v)
  }

  /** Every call on an owned address space leaves it owned, and has its effect. */
  lemma StepKeepsOwned(s: Space, s': Space, root: nat, limit: nat, call: Call, ok: bool)
    requires root != 0 && Owns(s, root, limit) && Step(s, s', root, call, ok)
    ensures Owns(s', root, limit) && Effect(s, s', root, call, ok)
  {
    if !ok {
      FailureIsInvisible(s, s', root, limit);
    } else {
      match call
      case Map(v, e) =>
        var m, pool :| MapsBy(s, s', root, v, e, m, pool);
        MapIsPointUpdate(s, m, root, limit, v, e, pool);
      case MapLarge(v, e) =>
        var m, pool :| MapsLargeBy(s, s', root, v, e, m, pool);
        LargeMapIsBlockUpdate(s, m, root, limit, v, e, pool);
      case Unmap(v) =>
        var c :| UnmapsBy(s, s', root, v, c);
        UnmapRemovesOne(s, root, limit, v, c);
    }
  }
}
