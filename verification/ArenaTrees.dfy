/**
 An arena's two pairs of trees, run through the events of `Arena`: every critical section on the trees
 does to them what the event does to the state, so the theorems about runs hold of the trees.
 */
module ArenaTrees {
  import opened Extents
  import opened Recycling
  import opened ChunkIndex
  import opened Arena
  import opened Wrappers

  // ---------- One index beside another ----------

  ghost predicate Beside(t: ChunkTrees, o: ChunkTrees)
    reads t, o, t.ad, t.szad, o.ad, o.szad
  {
    t != o && t.nodes !! o.nodes && t.Valid() && o.Valid()
  }

  method RecordBeside(t: ChunkTrees, o: ChunkTrees, e: Extent, env: RecordEnv)
    requires Beside(t, o) && Recordable(t.c, t.cache, Views(t.ad), e)
    modifies t, t.nodes
    ensures Beside(t, o) && fresh(t.nodes - old(t.nodes))
    ensures Views(o.ad) == old(Views(o.ad)) && Views(t.ad) == Record(old(Views(t.ad)), e, env)
  {
    ghost var others, sizes := Views(o.ad), Views(o.szad);
    var leaked := t.RecordChunk(e.addr, e.size, e.zeroed, e.committed, env);
    assert Views(o.ad) == others && Views(o.szad) == sizes;
  }

  method TakeBeside(t: ChunkTrees, o: ChunkTrees, r: Request, env: TakeEnv) returns (reply: TakeReply)
    requires Beside(t, o) && Requestable(t.c, r)
    modifies t, t.nodes
    ensures Beside(t, o) && fresh(t.nodes - old(t.nodes))
    ensures Views(o.ad) == old(Views(o.ad)) && Views(t.ad) == Take(t.c, old(Views(t.ad)), r, env).free
    ensures reply == TakeReplyOf(Take(t.c, old(Views(t.ad)), r, env))
  {
    ghost var others, sizes := Views(o.ad), Views(o.szad);
    reply := t.TakeChunk(r, env);
    assert Views(o.ad) == others && Views(o.szad) == sizes;
  }

  // ---------- The arena ----------

  class Trees {
    const c: Config
    ghost const exact: bool
    const cached: ChunkTrees            // chunks_szad_cached, chunks_ad_cached
    const retained: ChunkTrees          // chunks_szad_retained, chunks_ad_retained
    var pendingCached: seq<Extent>      // ranges in the hands of threads between two critical sections
    var pendingRetained: seq<Extent>
    ghost var st: State                 // what the arena should look like

    function Tree(cache: bool): ChunkTrees {
      if cache then cached else retained
    }

    function Pending(cache: bool): seq<Extent>
      reads this
    {
      if cache then pendingCached else pendingRetained
    }

    ghost function View(cache: bool): Index
      reads this, Tree(cache), Tree(cache).ad
    {
      Index(Views(Tree(cache).ad), Pending(cache))
    }

    ghost predicate Valid()
      reads this, cached, retained, cached.ad, cached.szad, retained.ad, retained.szad
    {
      && Beside(cached, retained) && cached.c == c == retained.c && cached.cache && !retained.cache
      && View(true) == st.cached && View(false) == st.retained
      && Inv(c, exact, st)
    }

    constructor (c: Config, ghost exact: bool)
      ensures Valid() && st == Start() && this.c == c && this.exact == exact
      ensures fresh(cached) && fresh(retained)
    {
      this.c, this.exact := c, exact;
      var one := new ChunkTrees(c, true);
      var two := new ChunkTrees(c, false);
      cached, retained := one, two;
      pendingCached, pendingRetained, st := [], [], Start();
      new;
      StartOk(c, exact);
    }

    method SetPending(cache: bool, pending: seq<Extent>)
      modifies this`pendingCached, this`pendingRetained
      ensures Pending(cache) == pending && Pending(!cache) == old(Pending(!cache))
    {
      if cache {
        pendingCached := pending;
      } else {
        pendingRetained := pending;
      }
    }

    /** `chunk_record` of a pending range. */
    method Record(cache: bool, which: nat, env: RecordEnv)
      requires Beside(Tree(cache), Tree(!cache)) && which < |Pending(cache)|
      requires Recordable(Tree(cache).c, Tree(cache).cache, Views(Tree(cache).ad), Pending(cache)[which])
      modifies this`pendingCached, this`pendingRetained, Tree(cache), Tree(cache).nodes
      ensures Beside(Tree(cache), Tree(!cache)) && fresh(Tree(cache).nodes - old(Tree(cache).nodes))
      ensures View(cache) == SettleIn(old(View(cache)), which, env) && View(!cache) == old(View(!cache))
    {
      RecordBeside(Tree(cache), Tree(!cache), Pending(cache)[which], env);
      Drop(cache, which);
    }

    method Drop(cache: bool, which: nat)
      requires Beside(Tree(cache), Tree(!cache)) && which < |Pending(cache)|
      modifies this`pendingCached, this`pendingRetained
      ensures Beside(Tree(cache), Tree(!cache))
      ensures var x := old(View(cache)); View(cache) == Index(x.free, x.pending[..which] + x.pending[which + 1..])
      ensures View(!cache) == old(View(!cache))
    {
      ghost var free, other := Views(Tree(cache).ad), Views(Tree(!cache).ad);
      SetPending(cache, Pending(cache)[..which] + Pending(cache)[which + 1..]);
      assert Views(Tree(cache).ad) == free && Views(Tree(!cache).ad) == other;
    }

    /** The first section of `chunk_recycle`. */
    method Recycle(cache: bool, r: Request, env: TakeEnv) returns (reply: TakeReply)
      requires Beside(Tree(cache), Tree(!cache)) && Requestable(Tree(cache).c, r)
      modifies this`pendingCached, this`pendingRetained, Tree(cache), Tree(cache).nodes
      ensures Beside(Tree(cache), Tree(!cache)) && fresh(Tree(cache).nodes - old(Tree(cache).nodes))
      ensures var x := old(View(cache));
              var t := Take(Tree(cache).c, x.free, r, env);
              View(cache) == TakeFrom(x, t) && View(!cache) == old(View(!cache)) && reply == TakeReplyOf(t)
    {
      reply := TakeBeside(Tree(cache), Tree(!cache), r, env);
      if reply.back.Some? {
        Put(cache, reply.back.value);
      }
    }

    /** One event: the trees follow the state. */
    method Step(ev: Event)
      requires Valid() && Enabled(c, exact, st, ev)
      modifies this, cached, retained, cached.nodes, retained.nodes
      ensures Valid() && st == Next(c, exact, old(st), ev)
      ensures fresh(cached.nodes - old(cached.nodes)) && fresh(retained.nodes - old(retained.nodes))
    {
      ghost var next := Next(c, exact, st, ev);
      StepSafe(c, exact, st, ev);
      NextIndexes(c, exact, st, ev);
      Follow(ev);
      Arrive(next);
    }

    ghost method Arrive(next: State)
      requires Beside(cached, retained) && cached.c == c == retained.c && cached.cache && !retained.cache
      requires View(true) == next.cached && View(false) == next.retained && Inv(c, exact, next)
      modifies this`st
      ensures Valid() && st == next
    {
      st := next;
    }

    /** What an event does to the trees and to the ranges in between. */
    method Follow(ev: Event)
      requires Valid() && Enabled(c, exact, st, ev)
      modifies this`pendingCached, this`pendingRetained, cached, retained, cached.nodes, retained.nodes
      ensures Beside(cached, retained)
      ensures View(true) == NextIndex(c, exact, st, ev, true) && View(false) == NextIndex(c, exact, st, ev, false)
      ensures fresh(cached.nodes - old(cached.nodes)) && fresh(retained.nodes - old(retained.nodes))
    {
      match ev {
        case DallocCache(addr, size, committed) =>
          Put(true, Extent(addr, size, false, committed));
        case DallocWrapper(addr, size, committed, unmapped, decommitFails, purgeFails) =>
          if !unmapped {
            Put(false, DallocExtent(addr, size, committed, decommitFails, purgeFails));
          }
        case Settle(cache, which, env) =>
          SettleOk(c, cache, IndexOf(st, cache), which, env, st.mem, exact);
          Record(cache, which, env);
        case Alloc(cache, r, env) =>
          var reply := Recycle(cache, r, env);
        case _ =>
      }
    }

    method Put(cache: bool, e: Extent)
      requires Beside(Tree(cache), Tree(!cache))
      modifies this`pendingCached, this`pendingRetained
      ensures Beside(Tree(cache), Tree(!cache))
      ensures View(cache) == Defer(old(View(cache)), e) && View(!cache) == old(View(!cache))
    {
      ghost var a, b := Views(cached.ad), Views(retained.ad);
      SetPending(cache, Pending(cache) + [e]);
      assert Views(cached.ad) == a && Views(retained.ad) == b;
    }

    /** Any run: the trees end where `Run` ends. */
    method RunAll(evs: seq<Event>)
      requires Valid() && RunEnabled(c, exact, st, evs)
      modifies this, cached, retained, cached.nodes, retained.nodes
      ensures Valid() && st == Run(c, exact, old(st), evs)
      ensures fresh(cached.nodes - old(cached.nodes)) && fresh(retained.nodes - old(retained.nodes))
      decreases |evs|
    {
      if evs != [] {
        Step(evs[0]);
        RunAll(evs[1..]);
      }
    }
  }
}
