/**
 Whole runs of the chunk layer of one arena, by any number of threads: the cached and the retained
 index, the memory its callers own, and what the memory is like.

 Every event on an index is one critical section of chunk.c.  A failing `chunk_recycle` has two: the
 first takes a range out, the second records it again, and other events may come between them.  So
 may they between the hooks of `chunk_dalloc_wrapper` and its `chunk_record`.  A range in between is
 pending.  The hooks and the clearing of a returned range touch only memory that no one else may
 use, so each is part of the event that it belongs to.  The hooks' answers are part of the event.
 */
module Arena {
  import opened Extents
  import opened Recycling
  import opened Wrappers

  /** One index, and the ranges on their way into it. */
  datatype Index = Index(free: seq<Extent>, pending: seq<Extent>)

  datatype State = State(
    cached: Index,
    retained: Index,
    owned: iset<int>,  // addresses handed out to callers
    lost: iset<int>,   // addresses leaked by failed node allocations
    mem: Memory)

  datatype Event =
    | Map(base: nat, length: nat, committed: bool, content: iset<int>)  // the alloc hook provides new memory
    | Commit(lo: nat, length: nat)                                      // a caller commits memory it owns
    | Decommit(lo: nat, length: nat)                                    // a caller decommits memory it owns
    | Write(a: int)                                                     // a caller dirties a byte it owns
    | Lapse(a: int)                                                     // a purged byte is discarded and reads as zero
    | DallocCache(addr: nat, size: nat, committed: bool)
    | DallocWrapper(addr: nat, size: nat, committed: bool, unmapped: bool, decommitFails: bool, purgeFails: bool)
    | Settle(cache: bool, which: nat, recordEnv: RecordEnv)             // `chunk_record` of a pending range
    | Alloc(cache: bool, r: Request, takeEnv: TakeEnv)                  // `chunk_recycle`, first section

  // ---------- Sets of addresses ----------

  predicate Within(a: int, lo: nat, size: nat) {
    lo <= a < lo + size
  }

  ghost function Range(lo: nat, size: nat): iset<int> {
    iset a | Within(a, lo, size)
  }

  ghost function FreeSet(s: seq<Extent>): iset<int> {
    iset a | Free(s, a)
  }

  ghost function Span(e: Extent): iset<int> {
    Range(e.addr, e.size)
  }

  ghost function Held(x: Index): iset<int> {
    FreeSet(x.free) + FreeSet(x.pending)
  }

  /** Everything the arena accounts for. */
  ghost function All(st: State): iset<int> {
    Held(st.cached) + Held(st.retained) + st.owned + st.lost
  }

  // ---------- One index ----------

  ghost predicate Apart(s: seq<Extent>) {
    forall i, j :: 0 <= i < j < |s| ==> s[i].End() <= s[j].addr || s[j].End() <= s[i].addr
  }

  /** The pending ranges may be recorded, in any order, with any other events between. */
  ghost predicate PendingOk(c: Config, cache: bool, pending: seq<Extent>) {
    Apart(pending) && forall i :: 0 <= i < |pending| ==> ChunkSized(c, pending[i]) && !(cache && pending[i].zeroed)
  }

  ghost predicate IndexOk(c: Config, cache: bool, x: Index, m: Memory, exact: bool) {
    && WellFormed(c, cache, x.free) && PendingOk(c, cache, x.pending)
    && FreeSet(x.free) !! FreeSet(x.pending)
    && Truthful(x.free, m, exact) && Truthful(x.pending, m, exact)
  }

  function Defer(x: Index, e: Extent): Index {
    Index(x.free, x.pending + [e])
  }

  function SettleIn(x: Index, i: nat, env: RecordEnv): Index
    requires i < |x.pending|
  {
    Index(Record(x.free, x.pending[i], env), x.pending[..i] + x.pending[i + 1..])
  }

  function TakeFrom(x: Index, t: Taken): Index {
    Index(t.free, if t.back.Some? then x.pending + [t.back.value] else x.pending)
  }

  lemma SpanIsFreeSet(e: Extent)
    ensures FreeSet([e]) == Span(e)
  {
    forall a ensures a in FreeSet([e]) <==> a in Span(e) {
      FreeOne(e, a);
    }
  }

  lemma FreeSetAppend(s: seq<Extent>, e: Extent)
    ensures FreeSet(s + [e]) == FreeSet(s) + Span(e)
  {
    SpanIsFreeSet(e);
    forall a ensures a in FreeSet(s + [e]) <==> a in FreeSet(s) + Span(e) {
      FreeConcat(s, [e], a);
    }
  }

  /** A range that meets no free address meets no extent. */
  lemma OutsideSpan(s: seq<Extent>, e: Extent)
    requires e.size > 0 && FreeSet(s) !! Span(e)
    requires forall i :: 0 <= i < |s| ==> s[i].size > 0
    ensures Outside(s, e.addr, e.End())
  {
    forall i | 0 <= i < |s| ensures s[i].End() <= e.addr || e.End() <= s[i].addr {
      var a := if s[i].addr < e.addr then e.addr else s[i].addr;
      assert s[i].Contains(a) ==> a in FreeSet(s);
      assert Within(a, e.addr, e.size) ==> a in Span(e);
    }
  }

  lemma PendingAppend(c: Config, cache: bool, pending: seq<Extent>, e: Extent)
    requires PendingOk(c, cache, pending) && ChunkSized(c, e) && !(cache && e.zeroed)
    requires FreeSet(pending) !! Span(e)
    ensures PendingOk(c, cache, pending + [e])
  {
    assert forall i :: 0 <= i < |pending| ==> ChunkSized(c, pending[i]);
    OutsideSpan(pending, e);
  }

  lemma TruthfulAppend(s: seq<Extent>, e: Extent, m: Memory, exact: bool)
    requires Truthful(s, m, exact) && Truthful([e], m, exact)
    ensures Truthful(s + [e], m, exact)
  {
    var t := s + [e];
    forall i, a | 0 <= i < |t| && t[i].Contains(a) ensures Claims(m, exact, t[i], a) {
      if i == |s| {
        assert [e][0].Contains(a);
      } else {
        assert t[i] == s[i];
      }
    }
  }

  /** A range goes on its way. */
  lemma DeferOk(c: Config, cache: bool, x: Index, e: Extent, m: Memory, exact: bool)
    requires IndexOk(c, cache, x, m, exact) && Truthful([e], m, exact)
    requires ChunkSized(c, e) && !(cache && e.zeroed) && Held(x) !! Span(e)
    ensures IndexOk(c, cache, Defer(x, e), m, exact)
    ensures Held(Defer(x, e)) == Held(x) + Span(e)
  {
    FreeSetAppend(x.pending, e);
    PendingAppend(c, cache, x.pending, e);
    TruthfulAppend(x.pending, e, m, exact);
  }

  /** What remains pending without range `i`. */
  lemma PendingWithout(c: Config, cache: bool, pending: seq<Extent>, i: nat, m: Memory, exact: bool)
    requires PendingOk(c, cache, pending) && Truthful(pending, m, exact) && i < |pending|
    ensures var rest := pending[..i] + pending[i + 1..];
            && PendingOk(c, cache, rest) && Truthful(rest, m, exact) && Truthful([pending[i]], m, exact)
            && FreeSet(rest) == FreeSet(pending) - Span(pending[i]) && Span(pending[i]) <= FreeSet(pending)
  {
    var e, front, back := pending[i], pending[..i], pending[i + 1..];
    var rest := front + back;
    assert forall k :: 0 <= k < |rest| ==> rest[k] == pending[if k < i then k else k + 1];
    assert pending == front + [e] + back;
    forall a ensures a in FreeSet(rest) <==> a in FreeSet(pending) - Span(e) {
      FreeConcat(front, back, a);
      FreeConcat3(front, [e], back, a);
      FreeOne(e, a);
    }
    forall a | a in Span(e) ensures a in FreeSet(pending) {
      assert pending[i].Contains(a);
    }
    forall k, a | 0 <= k < |rest| && rest[k].Contains(a) ensures Claims(m, exact, rest[k], a) {
      assert pending[if k < i then k else k + 1].Contains(a);
    }
    forall a | [e][0].Contains(a) ensures Claims(m, exact, e, a) {
      assert pending[i].Contains(a);
    }
  }

  lemma RecordedSet(c: Config, cache: bool, s: seq<Extent>, e: Extent, env: RecordEnv)
    requires WellFormed(c, cache, s) && Recordable(c, cache, s, e)
    ensures FreeSet(Record(s, e, env)) == FreeSet(s) + (if Leaks(s, e, env) then iset{} else Span(e))
  {
    RecordConserves(c, cache, s, e, env);
    assert forall a :: e.Contains(a) <==> Within(a, e.addr, e.size);
  }

  /** A pending range is recorded: it becomes free, or is lost. */
  lemma SettleOk(c: Config, cache: bool, x: Index, i: nat, env: RecordEnv, m: Memory, exact: bool)
    requires IndexOk(c, cache, x, m, exact) && i < |x.pending|
    ensures var e := x.pending[i];
            && IndexOk(c, cache, SettleIn(x, i, env), m, exact) && Span(e) <= Held(x)
            && Recordable(c, cache, x.free, e)
            && Held(SettleIn(x, i, env)) == Held(x) - (if Leaks(x.free, e, env) then Span(e) else iset{})
  {
    var e := x.pending[i];
    PendingWithout(c, cache, x.pending, i, m, exact);
    assert forall k :: 0 <= k < |x.free| ==> ChunkSized(c, x.free[k]);
    OutsideSpan(x.free, e);
    RecordConserves(c, cache, x.free, e, env);
    RecordedSet(c, cache, x.free, e, env);
    RecordTruthful(x.free, e, env, m, exact);
  }

  /** The addresses a success gives to the caller. */
  ghost function Given(t: Taken, size: nat): iset<int> {
    if t.ret.Some? then Range(t.ret.value, size) else iset{}
  }

  ghost function PutOff(t: Taken): iset<int> {
    if t.back.Some? then Span(t.back.value) else iset{}
  }

  lemma TakenSets(s: seq<Extent>, t: Taken, size: nat)
    requires TakesOut(s, size, t)
    ensures Given(t, size) <= FreeSet(s) && PutOff(t) <= FreeSet(s) && Given(t, size) !! PutOff(t)
    ensures FreeSet(t.free) == FreeSet(s) - Given(t, size) - PutOff(t)
  {
    forall a ensures a in Given(t, size) + PutOff(t) <==> TakenOut(t, size, a) {
      assert t.back.Some? ==> (t.back.value.Contains(a) <==> Within(a, t.back.value.addr, t.back.value.size));
    }
  }

  lemma GivenUsable(t: Taken, size: nat, m: Memory)
    requires Usable(t, size, m)
    ensures !t.hooked ==> Given(t, size) <= m.committed
    ensures !t.hooked && t.zero && !t.memset ==> Given(t, size) !! m.dirty
  {
    assert forall a :: a in Given(t, size) ==> t.ret.value <= a < t.ret.value + size;
  }

  /** An index with the range `e` carried off from it. */
  lemma PutOffOk(c: Config, cache: bool, x: Index, free: seq<Extent>, e: Extent, m: Memory, exact: bool)
    requires IndexOk(c, cache, x, m, exact)
    requires WellFormed(c, cache, free) && Truthful(free, m, exact) && Truthful([e], m, exact)
    requires ChunkSized(c, e) && !(cache && e.zeroed)
    requires Span(e) <= FreeSet(x.free) && FreeSet(free) == FreeSet(x.free) - Span(e)
    ensures IndexOk(c, cache, Index(free, x.pending + [e]), m, exact)
    ensures Held(Index(free, x.pending + [e])) == Held(x)
  {
    FreeSetAppend(x.pending, e);
    PendingAppend(c, cache, x.pending, e);
    TruthfulAppend(x.pending, e, m, exact);
  }

  lemma TakenOk(c: Config, cache: bool, x: Index, t: Taken, size: nat, m: Memory, exact: bool)
    requires IndexOk(c, cache, x, m, exact) && WellFormed(c, cache, t.free) && TakesOut(x.free, size, t)
    requires t.back.Some? ==> Recordable(c, cache, t.free, t.back.value) && Truthful([t.back.value], m, exact)
    requires Truthful(t.free, m, exact) && Usable(t, size, m)
    ensures TakenWell(c, cache, x, t, size, m, exact)
  {
    TakenSets(x.free, t, size);
    GivenUsable(t, size, m);
    if t.back.Some? {
      PutOffOk(c, cache, x, t.free, t.back.value, m, exact);
    }
  }

  /** Only what is given to the caller leaves the index, and that is fit for use. */
  ghost predicate TakenWell(c: Config, cache: bool, x: Index, t: Taken, size: nat, m: Memory, exact: bool) {
    && IndexOk(c, cache, TakeFrom(x, t), m, exact)
    && Given(t, size) <= Held(x) && Held(TakeFrom(x, t)) == Held(x) - Given(t, size)
    && (!t.hooked ==> Given(t, size) <= m.committed)
    && (!t.hooked && t.zero && !t.memset ==> Given(t, size) !! m.dirty)
  }

  /** The first section of `chunk_recycle` on one index. */
  lemma TakeOk(c: Config, cache: bool, x: Index, r: Request, env: TakeEnv, m: Memory, exact: bool)
    requires IndexOk(c, cache, x, m, exact) && WellFormed(c, false, x.free) && Requestable(c, r)
    ensures TakenWell(c, cache, x, Take(c, x.free, r, env), r.size, m, exact)
  {
    TakeConserves(c, cache, x.free, r, env);
    TakeTruthful(c, x.free, r, env, m, exact);
    TakenOk(c, cache, x, Take(c, x.free, r, env), r.size, m, exact);
  }

  /** Memory outside an index may change. */
  lemma OkElsewhere(c: Config, cache: bool, x: Index, m: Memory, m': Memory, exact: bool)
    requires IndexOk(c, cache, x, m, exact)
    requires forall a :: a in Held(x) ==> (a in m.committed <==> a in m'.committed) && (a in m'.dirty ==> a in m.dirty)
    ensures IndexOk(c, cache, x, m', exact)
  {
    forall i, a | 0 <= i < |x.free| && x.free[i].Contains(a) ensures Claims(m', exact, x.free[i], a) {
      assert a in FreeSet(x.free) && Claims(m, exact, x.free[i], a);
    }
    forall i, a | 0 <= i < |x.pending| && x.pending[i].Contains(a) ensures Claims(m', exact, x.pending[i], a) {
      assert a in FreeSet(x.pending) && Claims(m, exact, x.pending[i], a);
    }
  }

  // ---------- The arena ----------

  ghost predicate Partition(st: State) {
    var f, g := Held(st.cached), Held(st.retained);
    && f !! g && f !! st.owned && g !! st.owned
    && st.lost !! f && st.lost !! g && st.lost !! st.owned
  }

  /**
   What every state keeps.  With `exact`, the callers report a range as decommitted only when no
   byte of it is committed; arena.c reports a chunk so even when decommitting its header failed.
   */
  ghost predicate Inv(c: Config, exact: bool, st: State) {
    && IndexOk(c, true, st.cached, st.mem, exact) && IndexOk(c, false, st.retained, st.mem, exact)
    && Partition(st)
    && st.mem.dirty <= st.mem.committed
  }

  function Start(): State {
    State(Index([], []), Index([], []), iset{}, iset{}, Memory(iset{}, iset{}))
  }

  lemma StartOk(c: Config, exact: bool)
    ensures Inv(c, exact, Start()) && All(Start()) == iset{} && Coalesced(Start().cached.free) && Coalesced(Start().retained.free)
  {
  }

  // ---------- Steps ----------

  /** The commit hook provides zeroed memory. */
  ghost function Committing(m: Memory, range: iset<int>): Memory {
    Memory(m.committed + range, m.dirty - range)
  }

  ghost function Decommitting(m: Memory, range: iset<int>): Memory {
    Memory(m.committed - range, m.dirty - range)
  }

  ghost function Clearing(m: Memory, range: iset<int>): Memory {
    Memory(m.committed, m.dirty - range)
  }

  /** The flags computed by `chunk_dalloc_wrapper`: decommit if possible, otherwise purge. */
  function DallocCommitted(committed: bool, decommitFails: bool): bool {
    committed && decommitFails
  }

  function DallocZeroed(committed: bool, decommitFails: bool, purgeFails: bool): bool {
    !DallocCommitted(committed, decommitFails) || !purgeFails
  }

  /** What its hooks do: committed memory is decommitted, or else purged. */
  ghost function Discarding(m: Memory, range: iset<int>, committed: bool, decommitFails: bool, purgeFails: bool): Memory {
    if committed && !decommitFails then Decommitting(m, range)
    else if committed && !purgeFails then Clearing(m, range)
    else m
  }

  function DallocExtent(addr: nat, size: nat, committed: bool, decommitFails: bool, purgeFails: bool): Extent {
    Extent(addr, size, DallocZeroed(committed, decommitFails, purgeFails), DallocCommitted(committed, decommitFails))
  }

  /** A caller gives back whole chunks that it owns, and calls them committed only if they are. */
  ghost predicate GivesBack(c: Config, exact: bool, st: State, addr: nat, size: nat, committed: bool) {
    && size > 0 && size % c.chunk == 0 && addr % c.chunk == 0
    && Range(addr, size) <= st.owned
    && (committed ==> Range(addr, size) <= st.mem.committed)
    && (exact && !committed ==> Range(addr, size) !! st.mem.committed)
  }

  function IndexOf(st: State, cache: bool): Index {
    if cache then st.cached else st.retained
  }

  function WithIndex(st: State, cache: bool, x: Index): State {
    if cache then st.(cached := x) else st.(retained := x)
  }

  ghost predicate Enabled(c: Config, exact: bool, st: State, ev: Event) {
    match ev
    case Map(base, length, _, content) => Range(base, length) !! All(st) && content <= Range(base, length)
    case Commit(lo, length) => Range(lo, length) <= st.owned
    case Decommit(lo, length) => Range(lo, length) <= st.owned
    case Write(a) => a in st.owned && a in st.mem.committed
    case Lapse(_) => true
    case DallocCache(addr, size, committed) => GivesBack(c, exact, st, addr, size, committed)
    case DallocWrapper(addr, size, committed, _, _, _) => GivesBack(c, exact, st, addr, size, committed)
    case Settle(cache, which, _) => which < |IndexOf(st, cache).pending|
    case Alloc(_, r, _) => Requestable(c, r)
  }

  ghost function Next(c: Config, exact: bool, st: State, ev: Event): State
    requires Inv(c, exact, st) && Enabled(c, exact, st, ev)
  {
    match ev
    case Map(base, length, committed, content) =>
      var range := Range(base, length);
      st.(owned := st.owned + range,
          mem := if committed then Memory(st.mem.committed + range, st.mem.dirty - range + content)
                 else Decommitting(st.mem, range))
    case Commit(lo, length) => st.(mem := Committing(st.mem, Range(lo, length)))
    case Decommit(lo, length) => st.(mem := Decommitting(st.mem, Range(lo, length)))
    case Write(a) => st.(mem := Memory(st.mem.committed, st.mem.dirty + iset{a}))
    case Lapse(a) => st.(mem := Clearing(st.mem, iset{a}))
    case DallocCache(addr, size, committed) =>
      st.(owned := st.owned - Range(addr, size), cached := Defer(st.cached, Extent(addr, size, false, committed)))
    case DallocWrapper(addr, size, committed, unmapped, decommitFails, purgeFails) =>
      var range := Range(addr, size);
      if unmapped then st.(owned := st.owned - range, mem := Decommitting(st.mem, range))
      else
        st.(owned := st.owned - range,
            retained := Defer(st.retained, DallocExtent(addr, size, committed, decommitFails, purgeFails)),
            mem := Discarding(st.mem, range, committed, decommitFails, purgeFails))
    case Settle(cache, which, env) =>
      var x := IndexOf(st, cache);
      var e := x.pending[which];
      WithIndex(st, cache, SettleIn(x, which, env)).(lost := if Leaks(x.free, e, env) then st.lost + Span(e) else st.lost)
    case Alloc(cache, r, env) =>
      var x := IndexOf(st, cache);
      var t := Take(c, x.free, r, env);
      var range := Given(t, r.size);
      var m := if t.hooked then Committing(st.mem, range) else st.mem;
      WithIndex(st, cache, TakeFrom(x, t)).(owned := st.owned + range, mem := if t.memset then Clearing(m, range) else m)
  }

  /** What an event does to each index. */
  ghost function NextIndex(c: Config, exact: bool, st: State, ev: Event, cache: bool): Index
    requires Inv(c, exact, st) && Enabled(c, exact, st, ev)
  {
    var x := IndexOf(st, cache);
    match ev
    case DallocCache(addr, size, committed) => if cache then Defer(x, Extent(addr, size, false, committed)) else x
    case DallocWrapper(addr, size, committed, unmapped, decommitFails, purgeFails) =>
      if unmapped || cache then x else Defer(x, DallocExtent(addr, size, committed, decommitFails, purgeFails))
    case Settle(which, i, env) => if which == cache then SettleIn(x, i, env) else x
    case Alloc(which, r, env) => if which == cache then TakeFrom(x, Take(c, x.free, r, env)) else x
    case _ => x
  }

  lemma NextIndexes(c: Config, exact: bool, st: State, ev: Event)
    requires Inv(c, exact, st) && Enabled(c, exact, st, ev)
    ensures Next(c, exact, st, ev).cached == NextIndex(c, exact, st, ev, true)
    ensures Next(c, exact, st, ev).retained == NextIndex(c, exact, st, ev, false)
  {
  }

  /** The addresses accounted for after an event: only the alloc and dalloc hooks change them. */
  ghost function Ledger(all: iset<int>, ev: Event): iset<int> {
    match ev
    case Map(base, length, _, _) => all + Range(base, length)
    case DallocWrapper(addr, size, _, unmapped, _, _) => if unmapped then all - Range(addr, size) else all
    case _ => all
  }

  // ---------- Each step ----------

  /** Events on the callers' own memory. */
  lemma CallerStep(c: Config, exact: bool, st: State, ev: Event)
    requires Inv(c, exact, st) && Enabled(c, exact, st, ev)
    requires ev.Map? || ev.Commit? || ev.Decommit? || ev.Write? || ev.Lapse?
    ensures Inv(c, exact, Next(c, exact, st, ev))
    ensures All(Next(c, exact, st, ev)) == Ledger(All(st), ev)
  {
    var st' := Next(c, exact, st, ev);
    OkElsewhere(c, true, st.cached, st.mem, st'.mem, exact);
    OkElsewhere(c, false, st.retained, st.mem, st'.mem, exact);
  }

  lemma SpanTruthful(e: Extent, m: Memory, exact: bool)
    requires e.committed ==> Span(e) <= m.committed && (e.zeroed ==> Span(e) !! m.dirty)
    requires !e.committed && exact ==> Span(e) !! m.committed
    ensures Truthful([e], m, exact)
  {
    forall a | [e][0].Contains(a) ensures Claims(m, exact, e, a) {
      assert a in Span(e);
    }
  }

  lemma DallocCacheStep(c: Config, exact: bool, st: State, ev: Event)
    requires Inv(c, exact, st) && Enabled(c, exact, st, ev) && ev.DallocCache?
    ensures Inv(c, exact, Next(c, exact, st, ev))
    ensures All(Next(c, exact, st, ev)) == Ledger(All(st), ev)
  {
    var e := Extent(ev.addr, ev.size, false, ev.committed);
    SpanTruthful(e, st.mem, exact);
    DeferOk(c, true, st.cached, e, st.mem, exact);
  }

  lemma DallocWrapperStep(c: Config, exact: bool, st: State, ev: Event)
    requires Inv(c, exact, st) && Enabled(c, exact, st, ev) && ev.DallocWrapper?
    ensures Inv(c, exact, Next(c, exact, st, ev))
    ensures All(Next(c, exact, st, ev)) == Ledger(All(st), ev)
  {
    var st' := Next(c, exact, st, ev);
    OkElsewhere(c, true, st.cached, st.mem, st'.mem, exact);
    OkElsewhere(c, false, st.retained, st.mem, st'.mem, exact);
    if !ev.unmapped {
      var e := DallocExtent(ev.addr, ev.size, ev.committed, ev.decommitFails, ev.purgeFails);
      SpanTruthful(e, st'.mem, exact);
      DeferOk(c, false, st.retained, e, st'.mem, exact);
    }
  }

  lemma SettleStep(c: Config, exact: bool, st: State, ev: Event)
    requires Inv(c, exact, st) && Enabled(c, exact, st, ev) && ev.Settle?
    ensures Inv(c, exact, Next(c, exact, st, ev))
    ensures All(Next(c, exact, st, ev)) == Ledger(All(st), ev)
  {
    SettleOk(c, ev.cache, IndexOf(st, ev.cache), ev.which, ev.recordEnv, st.mem, exact);
  }

  lemma AllocStep(c: Config, exact: bool, st: State, ev: Event)
    requires Inv(c, exact, st) && Enabled(c, exact, st, ev) && ev.Alloc?
    ensures Inv(c, exact, Next(c, exact, st, ev))
    ensures All(Next(c, exact, st, ev)) == Ledger(All(st), ev)
  {
    var st' := Next(c, exact, st, ev);
    var x := IndexOf(st, ev.cache);
    TakeOk(c, ev.cache, x, ev.r, ev.takeEnv, st.mem, exact);
    OkElsewhere(c, ev.cache, IndexOf(st', ev.cache), st.mem, st'.mem, exact);
    OkElsewhere(c, !ev.cache, IndexOf(st, !ev.cache), st.mem, st'.mem, exact);
  }

  /**
   Every event keeps both indexes well formed and the flags of every range true, keeps cached,
   retained, pending, owned and leaked addresses apart, and loses none of them.
   */
  lemma StepSafe(c: Config, exact: bool, st: State, ev: Event)
    requires Inv(c, exact, st) && Enabled(c, exact, st, ev)
    ensures Inv(c, exact, Next(c, exact, st, ev))
    ensures All(Next(c, exact, st, ev)) == Ledger(All(st), ev)
  {
    match ev
    case DallocCache(_, _, _) => DallocCacheStep(c, exact, st, ev);
    case DallocWrapper(_, _, _, _, _, _) => DallocWrapperStep(c, exact, st, ev);
    case Settle(_, _, _) => SettleStep(c, exact, st, ev);
    case Alloc(_, _, _) => AllocStep(c, exact, st, ev);
    case _ => CallerStep(c, exact, st, ev);
  }

  /** A pending range becomes free, or is lost because there is no node for it. */
  ghost predicate Settles(x: Index, x': Index, which: nat, lost: iset<int>, lost': iset<int>, nodeFails: bool)
    requires which < |x.pending|
  {
    var range := Span(x.pending[which]);
    && FreeSet(x'.pending) == FreeSet(x.pending) - range
    && ((lost' == lost && FreeSet(x'.free) == FreeSet(x.free) + range) || (nodeFails && lost' == lost + range && x'.free == x.free))
  }

  /** A range is given out exactly if an extent serves the request and no needed hook refuses. */
  ghost predicate Serves(c: Config, x: Index, r: Request, env: TakeEnv, owned: iset<int>, owned': iset<int>)
    requires r.alignment >= c.chunk
  {
    if HasClass(c, Need(c, r)) then
      exists ret :: ReturnsServed(c, x.free, r, env, ret) && owned' == owned + (if ret.Some? then Range(ret.value, r.size) else iset{})
    else owned' == owned
  }

  /** Which addresses an event moves, and to where. */
  ghost predicate Moves(c: Config, st: State, ev: Event, st': State)
    requires ev.Settle? ==> ev.which < |IndexOf(st, ev.cache).pending|
    requires ev.Alloc? ==> ev.r.alignment >= c.chunk
  {
    match ev
    case Map(base, length, _, _) =>
      st'.owned == st.owned + Range(base, length) && st'.cached == st.cached && st'.retained == st.retained
    case DallocCache(addr, size, _) =>
      && st'.owned == st.owned - Range(addr, size) && st'.retained == st.retained
      && st'.cached.free == st.cached.free && FreeSet(st'.cached.pending) == FreeSet(st.cached.pending) + Range(addr, size)
    case DallocWrapper(addr, size, _, unmapped, _, _) =>
      && st'.owned == st.owned - Range(addr, size) && st'.cached == st.cached && st'.retained.free == st.retained.free
      && FreeSet(st'.retained.pending) == FreeSet(st.retained.pending) + (if unmapped then iset{} else Range(addr, size))
    case Settle(cache, which, env) =>
      && st'.owned == st.owned && IndexOf(st', !cache) == IndexOf(st, !cache)
      && Settles(IndexOf(st, cache), IndexOf(st', cache), which, st.lost, st'.lost, env.nodeFails)
    case Alloc(cache, r, env) =>
      && IndexOf(st', !cache) == IndexOf(st, !cache)
      && Serves(c, IndexOf(st, cache), r, env, st.owned, st'.owned)
    case _ => st'.owned == st.owned && st'.cached == st.cached && st'.retained == st.retained
  }

  lemma TakeGives(c: Config, x: Index, r: Request, env: TakeEnv, owned: iset<int>)
    requires WellFormed(c, false, x.free) && Requestable(c, r)
    ensures Serves(c, x, r, env, owned, owned + Given(Take(c, x.free, r, env), r.size))
  {
    var t := Take(c, x.free, r, env);
    SearchedSize(c, r, 0);
    if AllocSize(c, r) < r.size {
      TakeFindsNothing(c, x.free, r, env);
      assert Given(t, r.size) == iset{};
    } else if j: nat :| Candidate(c, x.free, r, j) {
      TakeServes(c, x.free, r, env, j);
    } else {
      TakeFindsNothing(c, x.free, r, env);
      assert ReturnsServed(c, x.free, r, env, t.ret);
    }
  }

  /** Every event moves exactly the addresses it should: what is given back leaves its owner, what is settled is free, what is asked for and served is owned. */
  lemma StepMoves(c: Config, exact: bool, st: State, ev: Event)
    requires Inv(c, exact, st) && Enabled(c, exact, st, ev)
    ensures Moves(c, st, ev, Next(c, exact, st, ev))
  {
    match ev
    case DallocCache(addr, size, committed) =>
      FreeSetAppend(st.cached.pending, Extent(addr, size, false, committed));
    case DallocWrapper(addr, size, committed, unmapped, decommitFails, purgeFails) =>
      FreeSetAppend(st.retained.pending, DallocExtent(addr, size, committed, decommitFails, purgeFails));
    case Settle(cache, which, env) =>
      var x := IndexOf(st, cache);
      PendingWithout(c, cache, x.pending, which, st.mem, exact);
      SettleOk(c, cache, x, which, env, st.mem, exact);
      RecordedSet(c, cache, x.free, x.pending[which], env);
    case Alloc(cache, r, env) =>
      TakeGives(c, IndexOf(st, cache), r, env, st.owned);
    case _ =>
  }

  // ---------- Runs ----------

  ghost function Run(c: Config, exact: bool, st: State, evs: seq<Event>): State
    requires Inv(c, exact, st) && RunEnabled(c, exact, st, evs)
    decreases |evs|
  {
    if evs == [] then st
    else
      StepSafe(c, exact, st, evs[0]);
      Run(c, exact, Next(c, exact, st, evs[0]), evs[1..])
  }

  ghost predicate RunEnabled(c: Config, exact: bool, st: State, evs: seq<Event>)
    requires Inv(c, exact, st)
    decreases |evs|
  {
    evs == [] ||
    (Enabled(c, exact, st, evs[0]) &&
     (StepSafe(c, exact, st, evs[0]); RunEnabled(c, exact, Next(c, exact, st, evs[0]), evs[1..])))
  }

  ghost function RunLedger(all: iset<int>, evs: seq<Event>): iset<int>
    decreases |evs|
  {
    if evs == [] then all else RunLedger(Ledger(all, evs[0]), evs[1..])
  }

  /** Safety of whole runs: no address is ever free twice, free and owned, or unaccounted for. */
  lemma {:induction false} RunSafe(c: Config, exact: bool, st: State, evs: seq<Event>)
    requires Inv(c, exact, st) && RunEnabled(c, exact, st, evs)
    ensures Inv(c, exact, Run(c, exact, st, evs))
    ensures All(Run(c, exact, st, evs)) == RunLedger(All(st), evs)
    decreases |evs|
  {
    if evs != [] {
      StepSafe(c, exact, st, evs[0]);
      RunSafe(c, exact, Next(c, exact, st, evs[0]), evs[1..]);
    }
  }

  /**
   After any run, an allocation that succeeds hands out aligned memory that nobody owns and that is
   on its way nowhere, that is committed, and that reads as zero if the caller is told so.
   */
  lemma AllocationIsFresh(c: Config, exact: bool, st: State, evs: seq<Event>, cache: bool, r: Request, env: TakeEnv)
    requires Inv(c, exact, st) && RunEnabled(c, exact, st, evs) && Requestable(c, r)
    ensures Inv(c, exact, Run(c, exact, st, evs))
    ensures var now := Run(c, exact, st, evs);
            var t := Take(c, IndexOf(now, cache).free, r, env);
            var next := Next(c, exact, now, Alloc(cache, r, env));
            t.ret.Some? ==>
              var range := Range(t.ret.value, r.size);
              && t.ret.value % r.alignment == 0
              && range !! now.owned && range <= next.owned
              && range !! Held(next.cached) + Held(next.retained) + next.lost
              && range <= next.mem.committed
              && (t.zero ==> range !! next.mem.dirty)
  {
    RunSafe(c, exact, st, evs);
    var now := Run(c, exact, st, evs);
    var x := IndexOf(now, cache);
    TakeConserves(c, cache, x.free, r, env);
    TakeOk(c, cache, x, r, env, now.mem, exact);
    StepSafe(c, exact, now, Alloc(cache, r, env));
  }

  // ---------- One committed status ----------

  /** The flags of an extent say what each of its bytes is like. */
  ghost predicate FlagsHold(e: Extent, m: Memory) {
    forall a :: e.Contains(a) ==> (e.committed <==> a in m.committed) && (e.zeroed ==> a !in m.dirty)
  }

  /**
   If the callers report exactly, every range in an index or on its way there has one committed
   status, which is its flag; and if it is marked zeroed it is zero, because decommitted bytes are.
   */
  lemma RunOneStatus(c: Config, st: State, evs: seq<Event>)
    requires Inv(c, true, st) && RunEnabled(c, true, st, evs)
    ensures OneStatus(Run(c, true, st, evs))
  {
    RunSafe(c, true, st, evs);
    var now := Run(c, true, st, evs);
    TruthfulIsExact(now.cached.free, now.mem);
    TruthfulIsExact(now.cached.pending, now.mem);
    TruthfulIsExact(now.retained.free, now.mem);
    TruthfulIsExact(now.retained.pending, now.mem);
  }

  lemma TruthfulIsExact(s: seq<Extent>, m: Memory)
    requires Truthful(s, m, true) && m.dirty <= m.committed
    ensures AllFlagsHold(s, m)
  {
    forall i, a | 0 <= i < |s| && s[i].Contains(a)
      ensures (s[i].committed <==> a in m.committed) && (s[i].zeroed ==> a !in m.dirty)
    {
      assert Claims(m, true, s[i], a);
    }
  }

  ghost predicate AllFlagsHold(s: seq<Extent>, m: Memory) {
    forall i :: 0 <= i < |s| ==> FlagsHold(s[i], m)
  }

  /** Every range in an index or on its way there has one committed status, which is its flag. */
  ghost predicate OneStatus(st: State) {
    && AllFlagsHold(st.cached.free, st.mem) && AllFlagsHold(st.cached.pending, st.mem)
    && AllFlagsHold(st.retained.free, st.mem) && AllFlagsHold(st.retained.pending, st.mem)
  }

  lemma ExactIsTruthful(s: seq<Extent>, m: Memory)
    requires AllFlagsHold(s, m)
    ensures Truthful(s, m, true)
  {
    forall i, a | 0 <= i < |s| && s[i].Contains(a) ensures Claims(m, true, s[i], a) {
      assert FlagsHold(s[i], m);
    }
  }

  /** The stronger invariant is just that. */
  lemma OneStatusIsExact(c: Config, st: State)
    requires Inv(c, false, st)
    ensures Inv(c, true, st) <==> OneStatus(st)
  {
    if OneStatus(st) {
      ExactIsTruthful(st.cached.free, st.mem);
      ExactIsTruthful(st.cached.pending, st.mem);
      ExactIsTruthful(st.retained.free, st.mem);
      ExactIsTruthful(st.retained.pending, st.mem);
    }
    if Inv(c, true, st) {
      TruthfulIsExact(st.cached.free, st.mem);
      TruthfulIsExact(st.cached.pending, st.mem);
      TruthfulIsExact(st.retained.free, st.mem);
      TruthfulIsExact(st.retained.pending, st.mem);
    }
  }

  /** The event gives back a range that stays in the arena, and calls it decommitted although a byte of it is committed. */
  ghost predicate Misreports(st: State, ev: Event) {
    && ((ev.DallocCache? && !ev.committed) || (ev.DallocWrapper? && !ev.unmapped && !ev.committed))
    && !(Range(ev.addr, ev.size) !! st.mem.committed)
  }

  /** A misreported range does not have the status that its flag says. */
  lemma MisreportShows(c: Config, st: State, ev: Event)
    requires Inv(c, false, st) && Enabled(c, false, st, ev) && Misreports(st, ev)
    ensures !OneStatus(Next(c, false, st, ev))
  {
    var st' := Next(c, false, st, ev);
    var pending := IndexOf(st', ev.DallocCache?).pending;
    var e := pending[|pending| - 1];
    var a :| a in Range(ev.addr, ev.size) && a in st.mem.committed;
    assert e.Contains(a) && !e.committed && a in st'.mem.committed;
    assert !FlagsHold(e, st'.mem);
  }

  lemma HonestEvent(c: Config, st: State, ev: Event)
    requires Inv(c, false, st) && Inv(c, true, st) && Enabled(c, false, st, ev) && !Misreports(st, ev)
    ensures OneStatus(Next(c, false, st, ev))
  {
    var st' := Next(c, false, st, ev);
    StepSafe(c, false, st, ev);
    if ev.DallocWrapper? && ev.unmapped {
      OkElsewhere(c, true, st.cached, st.mem, st'.mem, true);
      OkElsewhere(c, false, st.retained, st.mem, st'.mem, true);
    } else {
      assert Enabled(c, true, st, ev);
      StepSafe(c, true, st, ev);
      assert Next(c, true, st, ev) == st';
    }
    OneStatusIsExact(c, st');
  }

  /** From a state in which every range has one committed status, an event keeps that exactly unless it misreports. */
  lemma StatusKept(c: Config, st: State, ev: Event)
    requires Inv(c, false, st) && Enabled(c, false, st, ev) && OneStatus(st)
    ensures OneStatus(Next(c, false, st, ev)) <==> !Misreports(st, ev)
  {
    OneStatusIsExact(c, st);
    if Misreports(st, ev) {
      MisreportShows(c, st, ev);
    } else {
      HonestEvent(c, st, ev);
    }
  }

  /**
   A caller that trusts the `*commit` of `chunk_recycle` misreports: if that is false after a success, the
   range is committed all the same, and giving it back as decommitted breaks its one status.
   */
  lemma TrustingCaller(c: Config, st: State, cache: bool, r: Request, env: TakeEnv, decommitFails: bool, purgeFails: bool)
    requires Inv(c, false, st) && Requestable(c, r)
    requires Take(c, IndexOf(st, cache).free, r, env).ret.Some?
    ensures var t := Take(c, IndexOf(st, cache).free, r, env);
            var next := Next(c, false, st, Alloc(cache, r, env));
            var back := DallocWrapper(t.ret.value, r.size, t.commit, false, decommitFails, purgeFails);
            Enabled(c, false, next, back) && (Misreports(next, back) <==> !t.commit)
  {
    var x := IndexOf(st, cache);
    var t := Take(c, x.free, r, env);
    TakeConserves(c, cache, x.free, r, env);
    AllocationIsFresh(c, false, st, [], cache, r, env);
    ReportOfCommitted(c, Next(c, false, st, Alloc(cache, r, env)), t.ret.value, r.size, t.commit, decommitFails, purgeFails);
  }

  lemma ReportOfCommitted(c: Config, st: State, addr: nat, size: nat, committed: bool, decommitFails: bool, purgeFails: bool)
    requires size > 0 && size % c.chunk == 0 && addr % c.chunk == 0
    requires Range(addr, size) <= st.owned && Range(addr, size) <= st.mem.committed
    ensures var back := DallocWrapper(addr, size, committed, false, decommitFails, purgeFails);
            Enabled(c, false, st, back) && (Misreports(st, back) <==> !committed)
  {
    assert addr in Range(addr, size) && addr in st.mem.committed;
  }

  /** Exactly when the zeroed flag that `chunk_dalloc_wrapper` computes is true of the memory as it is. */
  lemma ZeroedFlagIsTrue(c: Config, exact: bool, st: State, ev: Event)
    requires Inv(c, exact, st) && Enabled(c, exact, st, ev) && ev.DallocWrapper? && !ev.unmapped
    ensures var e := DallocExtent(ev.addr, ev.size, ev.committed, ev.decommitFails, ev.purgeFails);
            (e.zeroed ==> Span(e) !! Next(c, exact, st, ev).mem.dirty) <==> ev.committed || Span(e) !! st.mem.dirty
    ensures exact ==> ev.committed || Range(ev.addr, ev.size) !! st.mem.dirty
  {
  }

  /**
   A caller may report a chunk as decommitted with its header still committed: the chunk is then
   marked zeroed over a byte that is not zero.  (It is zeroed by the commit hook before its next use.)
   */
  lemma PartlyDecommitted(c: Config) returns (evs: seq<Event>)
    requires c.chunk == 4
    ensures Inv(c, false, Start()) && RunEnabled(c, false, Start(), evs)
    ensures var now := Run(c, false, Start(), evs);
            now.retained.pending == [Extent(4, 4, true, false)] && 4 in now.mem.dirty
  {
    StartOk(c, false);
    var fetch, rest := Map(4, 4, true, iset{4}), Decommit(5, 3);
    var back := DallocWrapper(4, 4, false, false, false, false);
    evs := [fetch] + ([rest] + ([back] + []));
    StepSafe(c, false, Start(), fetch);
    var s1 := Next(c, false, Start(), fetch);
    assert s1.owned == Range(4, 4) && s1.mem.dirty == iset{4} && s1.retained.pending == [];
    StepSafe(c, false, s1, rest);
    var s2 := Next(c, false, s1, rest);
    assert s2.owned == Range(4, 4) && s2.mem.dirty == iset{4} && s2.retained.pending == [];
    StepSafe(c, false, s2, back);
    assert Next(c, false, s2, back).mem == s2.mem;
    RunCons(c, false, s2, back, []);
    RunCons(c, false, s1, rest, [back] + []);
    RunCons(c, false, Start(), fetch, [rest] + ([back] + []));
  }

  lemma RunCons(c: Config, exact: bool, st: State, ev: Event, evs: seq<Event>)
    requires Inv(c, exact, st) && Enabled(c, exact, st, ev) && Inv(c, exact, Next(c, exact, st, ev))
    requires RunEnabled(c, exact, Next(c, exact, st, ev), evs)
    ensures RunEnabled(c, exact, st, [ev] + evs)
    ensures Run(c, exact, st, [ev] + evs) == Run(c, exact, Next(c, exact, st, ev), evs)
  {
    assert ([ev] + evs)[0] == ev && ([ev] + evs)[1..] == evs;
  }

  // ---------- Coalescing over runs ----------

  /** The merge hook never refuses during the event. */
  predicate MergesFreely(ev: Event) {
    ev.Settle? ==> !ev.recordEnv.refuseForward && !ev.recordEnv.refuseBackward
  }

  lemma StepCoalesces(c: Config, exact: bool, st: State, ev: Event)
    requires Inv(c, exact, st) && Enabled(c, exact, st, ev) && MergesFreely(ev)
    requires Coalesced(st.cached.free) && Coalesced(st.retained.free)
    ensures var st' := Next(c, exact, st, ev); Coalesced(st'.cached.free) && Coalesced(st'.retained.free)
  {
    match ev
    case Settle(cache, which, env) =>
      var x := IndexOf(st, cache);
      SettleOk(c, cache, x, which, env, st.mem, exact);
      RecordCoalesces(c, cache, x.free, x.pending[which], env);
    case Alloc(cache, r, env) =>
      TakeCoalesces(c, cache, IndexOf(st, cache).free, r, env);
    case _ =>
  }

  /** If the merge hook never refuses, no run leaves two adjacent free extents with the same committed flag. */
  lemma {:induction false} RunCoalesces(c: Config, exact: bool, st: State, evs: seq<Event>)
    requires Inv(c, exact, st) && RunEnabled(c, exact, st, evs)
    requires forall i :: 0 <= i < |evs| ==> MergesFreely(evs[i])
    requires Coalesced(st.cached.free) && Coalesced(st.retained.free)
    ensures var now := Run(c, exact, st, evs); Coalesced(now.cached.free) && Coalesced(now.retained.free)
    decreases |evs|
  {
    if evs != [] {
      StepSafe(c, exact, st, evs[0]);
      StepCoalesces(c, exact, st, evs[0]);
      RunCoalesces(c, exact, Next(c, exact, st, evs[0]), evs[1..]);
    }
  }
}
