/**
 Free extents as values: the two orders of extent.c, and what `chunk_record` and
 `chunk_recycle` of chunk.c do to the address-ordered list of free extents.

 The answers of the chunk hooks (split, merge, commit) and of the node allocator
 are parameters, so every statement holds for every behaviour of theirs.
 */
module Extents {
  import opened SizeClasses

  /** Chunk size, size-class table, and 2^(bits of size_t). */
  datatype Parameters = Parameters(chunk: nat, classes: seq<nat>, word: nat)

  /** Chunks are no smaller than the smallest class, and no class exceeds half the address space. */
  type Config = c: Parameters |
      && IsTable(c.classes)
      && 0 < c.chunk && c.classes[0] <= c.chunk
      && c.word % 2 == 0 && (c.word / 2) % c.chunk == 0
      && c.classes[|c.classes| - 1] <= c.word / 2
    ghost witness Parameters(1, [1], 2)

  datatype Extent = Extent(addr: nat, size: nat, zeroed: bool, committed: bool) {
    function End(): nat { addr + size }
    predicate Contains(a: int) { addr <= a < addr + size }
  }

  // ---------- Orders (extent.c) ----------

  /** `extent_quantize`; sizes below the smallest class, which no extent has, are given 0. */
  function QSize(c: Config, size: nat): nat {
    if c.classes[0] <= size then Quantize(c.classes, size) else 0
  }

  /** `extent_szad_comp(a, b) < 0`: quantised size first, then address. */
  predicate SzadLess(c: Config, a: Extent, b: Extent) {
    var qa, qb := QSize(c, a.size), QSize(c, b.size);
    qa < qb || (qa == qb && a.addr < b.addr)
  }

  // ---------- Lists of free extents ----------

  ghost predicate ChunkSized(c: Config, e: Extent)
  {
    e.size > 0 && e.size % c.chunk == 0 && e.addr % c.chunk == 0
  }

  /** Address order and disjointness in one. */
  ghost predicate Sorted(s: seq<Extent>) {
    forall i, j :: 0 <= i < j < |s| ==> s[i].End() <= s[j].addr
  }

  /** What the pair of indexes always holds. */
  ghost predicate WellFormed(c: Config, cache: bool, s: seq<Extent>)
  {
    && Sorted(s)
    && (forall i :: 0 <= i < |s| ==> ChunkSized(c, s[i]))
    && (cache ==> forall i :: 0 <= i < |s| ==> !s[i].zeroed)
  }

  /** Address `a` is free. */
  ghost predicate Free(s: seq<Extent>, a: int) {
    exists i :: 0 <= i < |s| && s[i].Contains(a)
  }

  /** The range [lo, hi) meets no free extent. */
  ghost predicate Outside(s: seq<Extent>, lo: nat, hi: nat) {
    forall i :: 0 <= i < |s| ==> s[i].End() <= lo || hi <= s[i].addr
  }

  /** No two neighbouring extents could still be merged. */
  ghost predicate Coalesced(s: seq<Extent>) {
    forall i :: 0 <= i < |s| - 1 ==> s[i].End() != s[i + 1].addr || s[i].committed != s[i + 1].committed
  }

  /** What the bytes are like: which are committed, and which of those may be other than zero. */
  datatype Memory = Memory(committed: iset<int>, dirty: iset<int>)

  /**
   What the flags of `e` claim of a byte of it.  A committed extent is committed in every byte, and
   holds only zeros if it is zeroed.  A decommitted one will be committed, and so zeroed, by the commit
   hook before it is used; its flag is exact if no byte of it is committed now.
   */
  ghost predicate Claims(m: Memory, exact: bool, e: Extent, a: int) {
    if e.committed then a in m.committed && (e.zeroed ==> a !in m.dirty)
    else exact ==> a !in m.committed
  }

  /** The flags of all extents are true. */
  ghost predicate Truthful(s: seq<Extent>, m: Memory, exact: bool) {
    forall i, a :: 0 <= i < |s| && s[i].Contains(a) ==> Claims(m, exact, s[i], a)
  }

  lemma FreeConcat(x: seq<Extent>, y: seq<Extent>, a: int)
    ensures Free(x + y, a) <==> Free(x, a) || Free(y, a)
  {
    if i :| 0 <= i < |x| && x[i].Contains(a) {
      assert (x + y)[i].Contains(a);
    }
    if i :| 0 <= i < |y| && y[i].Contains(a) {
      assert (x + y)[|x| + i].Contains(a);
    }
  }

  lemma FreeConcat3(x: seq<Extent>, y: seq<Extent>, z: seq<Extent>, a: int)
    ensures Free(x + y + z, a) <==> Free(x, a) || Free(y, a) || Free(z, a)
  {
    FreeConcat(x + y, z, a);
    FreeConcat(x, y, a);
  }

  lemma FreeOne(e: Extent, a: int)
    ensures Free([e], a) <==> e.Contains(a)
  {
    assert [e][0] == e;
  }

  /** `extent_tree_ad_nsearch`: the first extent at or after address `key`. */
  function LowerBound(s: seq<Extent>, key: nat): (k: nat)
    ensures k <= |s|
    ensures forall i :: 0 <= i < k ==> s[i].addr < key
    ensures k < |s| ==> key <= s[k].addr
  {
    if s == [] || key <= s[0].addr then 0
    else
      var k := LowerBound(s[1..], key);
      assert forall i :: 0 < i < k + 1 ==> s[i] == s[1..][i - 1];
      k + 1
  }

  /** Where a disjoint range falls: everything before ends at or before it, everything after starts at or after its end. */
  lemma LowerBoundSplits(s: seq<Extent>, e: Extent)
    requires Sorted(s) && e.size > 0 && Outside(s, e.addr, e.End())
    requires forall i :: 0 <= i < |s| ==> s[i].size > 0
    ensures var k := LowerBound(s, e.End());
            && (forall i :: 0 <= i < k ==> s[i].End() <= e.addr)
            && (forall i :: k <= i < |s| ==> e.End() <= s[i].addr)
  {
    var k := LowerBound(s, e.End());
    forall i | k <= i < |s| ensures e.End() <= s[i].addr {
      if i > k {
        assert s[k].End() <= s[i].addr;
      }
    }
  }

  // ---------- chunk_record ----------

  /** The environment's answers during one `chunk_record`: each merge hook call may refuse, node allocation may fail. */
  datatype RecordEnv = RecordEnv(refuseForward: bool, refuseBackward: bool, nodeFails: bool)

  predicate MergesForward(s: seq<Extent>, k: nat, e: Extent, env: RecordEnv) {
    k < |s| && s[k].addr == e.End() && s[k].committed == e.committed && !env.refuseForward
  }

  function MergedForward(n: Extent, e: Extent): Extent {
    Extent(e.addr, e.size + n.size, n.zeroed && e.zeroed, n.committed)
  }

  function MergedBackward(p: Extent, n: Extent): Extent {
    Extent(p.addr, p.size + n.size, p.zeroed && n.zeroed, n.committed)
  }

  /** Whether the range is leaked: nothing to merge with ahead and no node to describe it. */
  predicate Leaks(s: seq<Extent>, e: Extent, env: RecordEnv) {
    !MergesForward(s, LowerBound(s, e.End()), e, env) && env.nodeFails
  }

  /** After the forward step: the list with `e` either merged into its successor or inserted. */
  function ForwardStep(s: seq<Extent>, k: nat, e: Extent, env: RecordEnv): seq<Extent>
    requires k <= |s|
  {
    if MergesForward(s, k, e, env) then s[k := MergedForward(s[k], e)]
    else s[..k] + [e] + s[k..]
  }

  predicate MergesBackward(s: seq<Extent>, k: nat, e: Extent, env: RecordEnv)
    requires k < |s|
  {
    k > 0 && s[k - 1].End() == e.addr && s[k - 1].committed == e.committed && !env.refuseBackward
  }

  function BackwardStep(s: seq<Extent>, k: nat, e: Extent, env: RecordEnv): seq<Extent>
    requires k < |s|
  {
    if MergesBackward(s, k, e, env) then (s[..k - 1] + s[k..])[k - 1 := MergedBackward(s[k - 1], s[k])]
    else s
  }

  /** `chunk_record` on the address-ordered list. */
  function Record(s: seq<Extent>, e: Extent, env: RecordEnv): seq<Extent> {
    var k := LowerBound(s, e.End());
    if Leaks(s, e, env) then s
    else BackwardStep(ForwardStep(s, k, e, env), k, e, env)
  }

  /** A range that may be recorded: chunk-sized, owned by the caller (so not free), and not claimed zeroed in a cached index. */
  ghost predicate Recordable(c: Config, cache: bool, s: seq<Extent>, e: Extent)
  {
    && ChunkSized(c, e)
    && Outside(s, e.addr, e.End())
    && !(cache && e.zeroed)
  }

  /** Positions before and after the forward step. */
  lemma ForwardShape(s: seq<Extent>, k: nat, e: Extent, env: RecordEnv)
    requires k <= |s|
    ensures var t := ForwardStep(s, k, e, env);
            && k < |t|
            && (forall i :: 0 <= i < k ==> t[i] == s[i])
            && (if MergesForward(s, k, e, env)
                then t[k] == MergedForward(s[k], e) && |t| == |s| && forall i :: k < i < |t| ==> t[i] == s[i]
                else t[k] == e && |t| == |s| + 1 && forall i :: k < i < |t| ==> t[i] == s[i - 1])
  {
  }

  lemma ForwardSorted(s: seq<Extent>, e: Extent, env: RecordEnv)
    requires Sorted(s) && e.size > 0 && Outside(s, e.addr, e.End())
    requires forall i :: 0 <= i < |s| ==> s[i].size > 0
    ensures Sorted(ForwardStep(s, LowerBound(s, e.End()), e, env))
  {
    var k := LowerBound(s, e.End());
    LowerBoundSplits(s, e);
    ForwardShape(s, k, e, env);
    var t := ForwardStep(s, k, e, env);
    forall i, j | 0 <= i < j < |t| ensures t[i].End() <= t[j].addr {
      if MergesForward(s, k, e, env) {
        assert i != k ==> t[i] == s[i];
      } else {
        assert i != k ==> t[i] == if i < k then s[i] else s[i - 1];
        assert j != k ==> t[j] == if j < k then s[j] else s[j - 1];
      }
    }
  }

  lemma ForwardWellFormed(c: Config, cache: bool, s: seq<Extent>, e: Extent, env: RecordEnv)
    requires WellFormed(c, cache, s) && Recordable(c, cache, s, e)
    ensures WellFormed(c, cache, ForwardStep(s, LowerBound(s, e.End()), e, env))
  {
    var k := LowerBound(s, e.End());
    var t := ForwardStep(s, k, e, env);
    ForwardSorted(s, e, env);
    ForwardShape(s, k, e, env);
    assert ChunkSized(c, t[k]) by {
      if MergesForward(s, k, e, env) {
        MultipleSum(e.size, s[k].size, c.chunk);
      }
    }
    forall i | 0 <= i < |t| ensures ChunkSized(c, t[i]) {
      if i < k {
        assert t[i] == s[i];
      } else if i > k {
        assert t[i] == if MergesForward(s, k, e, env) then s[i] else s[i - 1];
      }
    }
  }

  lemma ForwardFree(s: seq<Extent>, k: nat, e: Extent, env: RecordEnv, a: int)
    requires k <= |s|
    ensures Free(ForwardStep(s, k, e, env), a) <==> Free(s, a) || e.Contains(a)
  {
    if MergesForward(s, k, e, env) {
      FreeConcat3(s[..k], [MergedForward(s[k], e)], s[k + 1..], a);
      FreeConcat3(s[..k], [s[k]], s[k + 1..], a);
      FreeOne(MergedForward(s[k], e), a);
      FreeOne(s[k], a);
      assert s == s[..k] + [s[k]] + s[k + 1..];
      assert s[k := MergedForward(s[k], e)] == s[..k] + [MergedForward(s[k], e)] + s[k + 1..];
    } else {
      FreeConcat3(s[..k], [e], s[k..], a);
      FreeConcat(s[..k], s[k..], a);
      FreeOne(e, a);
      assert s == s[..k] + s[k..];
    }
  }

  lemma BackwardFree(t: seq<Extent>, k: nat, e: Extent, env: RecordEnv, a: int)
    requires k < |t| && t[k].addr == e.addr
    ensures Free(BackwardStep(t, k, e, env), a) <==> Free(t, a)
  {
    if MergesBackward(t, k, e, env) {
      var m := MergedBackward(t[k - 1], t[k]);
      assert BackwardStep(t, k, e, env) == t[..k - 1] + [m] + t[k + 1..];
      FreeConcat3(t[..k - 1], [m], t[k + 1..], a);
      FreeConcat3(t[..k - 1], [t[k - 1]] + [t[k]], t[k + 1..], a);
      FreeConcat([t[k - 1]], [t[k]], a);
      FreeOne(m, a);
      FreeOne(t[k - 1], a);
      FreeOne(t[k], a);
      assert t == t[..k - 1] + ([t[k - 1]] + [t[k]]) + t[k + 1..];
    }
  }

  lemma BackwardWellFormed(c: Config, cache: bool, t: seq<Extent>, k: nat, e: Extent, env: RecordEnv)
    requires WellFormed(c, cache, t)
    requires k < |t| && t[k].addr == e.addr
    ensures WellFormed(c, cache, BackwardStep(t, k, e, env))
  {
    if MergesBackward(t, k, e, env) {
      MultipleSum(t[k - 1].size, t[k].size, c.chunk);
      var u := BackwardStep(t, k, e, env);
      assert u[k - 1] == MergedBackward(t[k - 1], t[k]);
      assert forall i :: 0 <= i < k - 1 ==> u[i] == t[i];
      assert forall i :: k <= i < |u| ==> u[i] == t[i + 1];
    }
  }

  /** The backward step merges in place: nothing becomes free or stops being free. */
  lemma BackwardFacts(c: Config, cache: bool, t: seq<Extent>, k: nat, e: Extent, env: RecordEnv)
    requires WellFormed(c, cache, t)
    requires k < |t| && t[k].addr == e.addr
    ensures WellFormed(c, cache, BackwardStep(t, k, e, env))
    ensures forall a :: Free(BackwardStep(t, k, e, env), a) <==> Free(t, a)
  {
    BackwardWellFormed(c, cache, t, k, e, env);
    forall a ensures Free(BackwardStep(t, k, e, env), a) <==> Free(t, a) {
      BackwardFree(t, k, e, env, a);
    }
  }

  /**
   `chunk_record` keeps the list well formed and adds exactly the recorded range to the free
   addresses, or, when it leaks, adds nothing.
   */
  lemma RecordConserves(c: Config, cache: bool, s: seq<Extent>, e: Extent, env: RecordEnv)
    requires WellFormed(c, cache, s) && Recordable(c, cache, s, e)
    ensures WellFormed(c, cache, Record(s, e, env))
    ensures forall a :: Free(Record(s, e, env), a) <==>
                        Free(s, a) || (!Leaks(s, e, env) && e.Contains(a))
  {
    if !Leaks(s, e, env) {
      var k := LowerBound(s, e.End());
      ForwardShape(s, k, e, env);
      ForwardWellFormed(c, cache, s, e, env);
      forall a ensures Free(ForwardStep(s, k, e, env), a) <==> Free(s, a) || e.Contains(a) {
        ForwardFree(s, k, e, env, a);
      }
      BackwardFacts(c, cache, ForwardStep(s, k, e, env), k, e, env);
    }
  }

  /** `e` falls between `s[k - 1]` and `s[k]`. */
  ghost predicate FallsAt(s: seq<Extent>, e: Extent, k: nat) {
    && k <= |s|
    && (forall i :: 0 <= i < k ==> s[i].End() <= e.addr)
    && (forall i :: k <= i < |s| ==> e.End() <= s[i].addr)
  }

  /** The extent is the range, joined with the neighbours that touch it, have its status and may be merged; all zero only if each part is. */
  function Joined(s: seq<Extent>, e: Extent, k: nat, back: bool, forth: bool): Extent
    requires (back ==> 0 < k <= |s|) && (forth ==> k < |s|)
  {
    var addr := if back then s[k - 1].addr else e.addr;
    var end := if forth then s[k].End() else e.End();
    Extent(addr, if addr <= end then end - addr else 0,
           e.zeroed && (back ==> s[k - 1].zeroed) && (forth ==> s[k].zeroed), e.committed)
  }

  /** What recording may merge: a neighbour that touches the range and has its status. */
  predicate Touches(p: Extent, n: Extent) {
    p.End() == n.addr && p.committed == n.committed
  }

  /**
   What `chunk_record` leaves, in one form: the list with the range in its place, joined with exactly
   those neighbours that touch it, have its status and whose merge the hook allows; or the list as it
   was, exactly if there is no node and no merge with the successor that would do without one.
   */
  lemma RecordResult(s: seq<Extent>, e: Extent, env: RecordEnv, k: nat)
    requires FallsAt(s, e, k) && e.size > 0
    ensures var back := k > 0 && Touches(s[k - 1], e) && !env.refuseBackward;
            var forth := k < |s| && Touches(e, s[k]) && !env.refuseForward;
            && (Leaks(s, e, env) <==> env.nodeFails && !forth)
            && Record(s, e, env) ==
                 if env.nodeFails && !forth then s
                 else s[..if back then k - 1 else k] + [Joined(s, e, k, back, forth)] + s[if forth then k + 1 else k..]
  {
    FallsAtBound(s, e, k);
    var forth := k < |s| && Touches(e, s[k]) && !env.refuseForward;
    assert MergesForward(s, k, e, env) == forth;
    if forth || !env.nodeFails {
      ForwardShape(s, k, e, env);
      BackwardResult(s, ForwardStep(s, k, e, env), e, env, k, forth);
    }
  }

  lemma FallsAtBound(s: seq<Extent>, e: Extent, k: nat)
    requires FallsAt(s, e, k) && e.size > 0
    ensures LowerBound(s, e.End()) == k
  {
    var b := LowerBound(s, e.End());
    assert b < |s| ==> e.End() <= s[b].addr;
    assert k < |s| ==> e.End() <= s[k].addr;
  }

  /** The backward step, after a forward step that merged or inserted. */
  lemma BackwardResult(s: seq<Extent>, t: seq<Extent>, e: Extent, env: RecordEnv, k: nat, forth: bool)
    requires FallsAt(s, e, k) && (forth ==> k < |s| && Touches(e, s[k]))
    requires t == s[..k] + [Joined(s, e, k, false, forth)] + s[if forth then k + 1 else k..]
    ensures var back := k > 0 && Touches(s[k - 1], e) && !env.refuseBackward;
            BackwardStep(t, k, e, env) ==
              s[..if back then k - 1 else k] + [Joined(s, e, k, back, forth)] + s[if forth then k + 1 else k..]
  {
    var rest := s[if forth then k + 1 else k..];
    var front, m := s[..k], Joined(s, e, k, false, forth);
    assert k > 0 ==> front[k - 1] == s[k - 1];
    if MergesBackward(t, k, e, env) {
      MergedIntoFront(front, m, rest, e, env);
      assert MergedBackward(s[k - 1], m) == Joined(s, e, k, true, forth);
      assert front[..k - 1] == s[..k - 1];
    }
  }

  lemma MergedIntoFront(front: seq<Extent>, m: Extent, rest: seq<Extent>, e: Extent, env: RecordEnv)
    requires front != [] && MergesBackward(front + [m] + rest, |front|, e, env)
    ensures var n := |front| - 1;
            BackwardStep(front + [m] + rest, n + 1, e, env) == front[..n] + [MergedBackward(front[n], m)] + rest
  {
    var t, n := front + [m] + rest, |front| - 1;
    assert t[..n] + t[n + 1..] == front[..n] + [m] + rest;
  }

  /** A refused merge is not made: with both refused the range stands alone. */
  lemma RefusedStandsAlone(s: seq<Extent>, e: Extent, env: RecordEnv, k: nat)
    requires FallsAt(s, e, k) && e.size > 0
    requires env.refuseForward && env.refuseBackward && !env.nodeFails
    ensures Record(s, e, env) == s[..k] + [e] + s[k..]
  {
    RecordResult(s, e, env, k);
  }

  /** With a merge hook that never refuses, `chunk_record` leaves no two mergeable neighbours. */
  lemma RecordCoalesces(c: Config, cache: bool, s: seq<Extent>, e: Extent, env: RecordEnv)
    requires WellFormed(c, cache, s) && Recordable(c, cache, s, e)
    requires Coalesced(s) && !env.refuseForward && !env.refuseBackward
    ensures Coalesced(Record(s, e, env))
  {
    if !Leaks(s, e, env) {
      var k := LowerBound(s, e.End());
      ForwardShape(s, k, e, env);
      CoalescedExceptBefore(s, k, e, env);
      BackwardCoalesces(ForwardStep(s, k, e, env), k, e, env);
    }
  }

  lemma BackwardCoalesces(t: seq<Extent>, k: nat, e: Extent, env: RecordEnv)
    requires k < |t| && t[k].addr == e.addr && t[k].committed == e.committed && !env.refuseBackward
    requires forall i :: 0 <= i < |t| - 1 && i + 1 != k ==>
               t[i].End() != t[i + 1].addr || t[i].committed != t[i + 1].committed
    ensures Coalesced(BackwardStep(t, k, e, env))
  {
    var u := BackwardStep(t, k, e, env);
    if MergesBackward(t, k, e, env) {
      assert forall i :: 0 <= i < k - 1 ==> u[i] == t[i];
      assert forall i :: k <= i < |u| ==> u[i] == t[i + 1];
      forall i | 0 <= i < |u| - 1
        ensures u[i].End() != u[i + 1].addr || u[i].committed != u[i + 1].committed
      {
        if i < k - 1 {
          assert u[i] == t[i] && u[i + 1].addr == t[i + 1].addr && u[i + 1].committed == t[i + 1].committed;
        } else {
          assert u[i].End() == t[i + 1].End() && u[i + 1] == t[i + 2];
        }
      }
    } else {
      forall i | 0 <= i < |u| - 1
        ensures u[i].End() != u[i + 1].addr || u[i].committed != u[i + 1].committed
      {
      }
    }
  }

  /** After the forward step only the pair (k-1, k) may still be mergeable. */
  lemma CoalescedExceptBefore(s: seq<Extent>, k: nat, e: Extent, env: RecordEnv)
    requires Sorted(s) && Coalesced(s) && k <= |s| && !env.refuseForward
    requires k < |s| ==> s[k].addr >= e.End()
    ensures var t := ForwardStep(s, k, e, env);
            forall i :: 0 <= i < |t| - 1 && i + 1 != k ==>
              t[i].End() != t[i + 1].addr || t[i].committed != t[i + 1].committed
  {
    var t := ForwardStep(s, k, e, env);
    forall i | 0 <= i < |t| - 1 && i + 1 != k
      ensures t[i].End() != t[i + 1].addr || t[i].committed != t[i + 1].committed
    {
      if i + 1 < k {
        assert t[i] == s[i] && t[i + 1] == s[i + 1];
      } else if MergesForward(s, k, e, env) {
        assert t[i].End() == s[i].End() && t[i].committed == s[i].committed && t[i + 1] == s[i + 1];
      } else if i == k {
        assert t[i] == e && t[i + 1] == s[k];
      } else {
        assert t[i] == s[i - 1] && t[i + 1] == s[i];
      }
    }
  }

  /** The flags stay true through both merges: only extents of one committed status are merged. */
  lemma RecordTruthful(s: seq<Extent>, e: Extent, env: RecordEnv, m: Memory, exact: bool)
    requires Truthful(s, m, exact) && Truthful([e], m, exact)
    ensures Truthful(Record(s, e, env), m, exact)
  {
    var k := LowerBound(s, e.End());
    if !Leaks(s, e, env) {
      var t := ForwardStep(s, k, e, env);
      ForwardTruthful(s, k, e, env, m, exact);
      if MergesBackward(t, k, e, env) {
        BackwardTruthful(t, k, e, env, m, exact);
      }
    }
  }

  lemma ForwardTruthful(s: seq<Extent>, k: nat, e: Extent, env: RecordEnv, m: Memory, exact: bool)
    requires Truthful(s, m, exact) && Truthful([e], m, exact) && k <= |s|
    ensures Truthful(ForwardStep(s, k, e, env), m, exact)
    ensures ForwardStep(s, k, e, env)[k].committed == e.committed
  {
    var t := ForwardStep(s, k, e, env);
    assert forall a :: [e][0].Contains(a) ==> Claims(m, exact, e, a);
    forall i, a | 0 <= i < |t| && t[i].Contains(a) ensures Claims(m, exact, t[i], a) {
      if MergesForward(s, k, e, env) {
        if i == k {
          assert e.Contains(a) || s[k].Contains(a);
        } else {
          assert t[i] == s[i];
        }
      } else {
        assert t[i] == if i < k then s[i] else if i == k then e else s[i - 1];
      }
    }
  }

  lemma BackwardTruthful(t: seq<Extent>, k: nat, e: Extent, env: RecordEnv, m: Memory, exact: bool)
    requires Truthful(t, m, exact) && k < |t| && MergesBackward(t, k, e, env)
    requires t[k].committed == e.committed && t[k].addr == e.addr
    ensures Truthful(BackwardStep(t, k, e, env), m, exact)
  {
    var u := BackwardStep(t, k, e, env);
    forall i, a | 0 <= i < |u| && u[i].Contains(a) ensures Claims(m, exact, u[i], a) {
      if i == k - 1 {
        assert t[k - 1].Contains(a) || t[k].Contains(a);
      } else {
        assert u[i] == if i < k then t[i] else t[i + 1];
      }
    }
  }

  lemma WholeStatus(p: Extent, n: Extent, m: Memory, committed: bool)
    requires p.size > 0 && n.size > 0 && p.End() == n.addr
    requires Truthful([p], m, true) && Truthful([n], m, true)
    ensures Truthful([Extent(p.addr, p.size + n.size, false, committed)], m, true) <==>
            p.committed == committed == n.committed
  {
    var whole := Extent(p.addr, p.size + n.size, false, committed);
    assert forall a :: [p][0].Contains(a) ==> Claims(m, true, p, a);
    assert forall a :: [n][0].Contains(a) ==> Claims(m, true, n, a);
    assert [whole][0].Contains(p.addr) && [whole][0].Contains(n.addr);
    assert p.Contains(p.addr) && n.Contains(n.addr);
    assert forall a :: whole.Contains(a) ==> p.Contains(a) || n.Contains(a);
  }

  /** Why the merge tests the flag: with exact flags, two neighbours have a true common description if and only if they agree on it. */
  lemma MergeNeedsOneStatus(p: Extent, n: Extent, m: Memory)
    requires p.size > 0 && n.size > 0 && p.End() == n.addr
    requires Truthful([p], m, true) && Truthful([n], m, true)
    ensures p.committed == n.committed <==>
            (Truthful([Extent(p.addr, p.size + n.size, false, true)], m, true) ||
             Truthful([Extent(p.addr, p.size + n.size, false, false)], m, true))
  {
    WholeStatus(p, n, m, true);
    WholeStatus(p, n, m, false);
  }
}
