/**
 `chunk_recycle` of chunk.c on the address-ordered list of free extents: choosing an extent,
 carving an aligned range out of it, and every failure exit.
 */
module Recycling {
  import opened SizeClasses
  import opened Extents
  import opened Wrappers

  /** `newAddr` is the address the caller insists on, if any; `zero` and `commit` are the incoming flags. */
  datatype Request = Request(newAddr: Option<nat>, size: nat, alignment: nat, zero: bool, commit: bool)

  /** The environment's answers during the first critical section of `chunk_recycle`. */
  datatype TakeEnv = TakeEnv(refuseLead: bool, refuseTrail: bool, nodeFails: bool, refuseCommit: bool)

  /** Where that section leaves things. */
  datatype Taken = Taken(
    free: seq<Extent>,      // the list afterwards
    ret: Option<nat>,       // the returned address, None for NULL
    zero: bool,             // *zero afterwards
    commit: bool,           // *commit afterwards
    hooked: bool,           // whether the commit hook committed the returned range
    memset: bool,           // whether the returned range was cleared here
    back: Option<Extent>)   // the range that a failing exit takes out and then records again

  /** The whole of `chunk_recycle`, when nothing happens between its two critical sections. */
  datatype Outcome = Outcome(
    free: seq<Extent>,
    ret: Option<nat>,
    zero: bool,
    commit: bool,
    hooked: bool,
    memset: bool,
    leaked: Option<Extent>)  // the range lost to a failed node allocation

  /** What the callers assert: whole chunks, an alignment that is a power of two (so at most half the address space). */
  ghost predicate Requestable(c: Config, r: Request) {
    && 0 < r.size < c.word && r.size % c.chunk == 0
    && c.chunk <= r.alignment <= c.word / 2 && r.alignment % c.chunk == 0
    && (r.newAddr.Some? ==> r.alignment == c.chunk)
  }

  // ---------- Choosing an extent ----------

  /** `CHUNK_CEILING(s2u(size + alignment - chunksize))` in size_t arithmetic. */
  function AllocSize(c: Config, r: Request): nat
    requires r.alignment >= c.chunk
  {
    Wrap(Ceil(S2u(c.classes, Wrap(r.size + r.alignment - c.chunk, c.word)), c.chunk), c.word)
  }

  /** Reduction modulo 2^bits of a sum of two size_t values. */
  function Wrap(x: nat, word: nat): nat {
    if x < word then x else x - word
  }

  /** The guard `alloc_size < size` catches every wrap-around and every request beyond the largest class. */
  lemma GuardIsExact(c: Config, r: Request)
    requires Requestable(c, r)
    ensures var need := r.size + r.alignment - c.chunk;
            AllocSize(c, r) >= r.size <==> need < c.word && S2u(c.classes, need) != 0
    ensures AllocSize(c, r) >= r.size ==> c.classes[0] <= AllocSize(c, r)
                                          && S2u(c.classes, r.size + r.alignment - c.chunk) <= AllocSize(c, r)
  {
    var need := r.size + r.alignment - c.chunk;
    ClassCeilingIsSmall(c, Wrap(need, c.word));
    MultipleGap(0, r.size, c.chunk);
  }

  /** The size asked for, with the room that aligning may take. */
  function Need(c: Config, r: Request): nat
    requires r.alignment >= c.chunk
  {
    r.size + r.alignment - c.chunk
  }

  /** `u` is the smallest class that holds `need` bytes. */
  ghost predicate IsLeastClass(c: Config, need: nat, u: nat) {
    u in c.classes && need <= u && forall v :: v in c.classes && need <= v ==> u <= v
  }

  ghost predicate HasClass(c: Config, need: nat) {
    exists u :: u in c.classes && need <= u
  }

  /** The guard passes if and only if some class holds the padded size, and the search is then for the least one in whole chunks. */
  lemma SearchedSize(c: Config, r: Request, u: nat)
    requires Requestable(c, r)
    ensures AllocSize(c, r) >= r.size <==> HasClass(c, Need(c, r))
    ensures IsLeastClass(c, Need(c, r), u) ==>
              u <= AllocSize(c, r) < u + c.chunk && AllocSize(c, r) % c.chunk == 0
  {
    var need := Need(c, r);
    GuardIsExact(c, r);
    ClassExists(c, need);
    if IsLeastClass(c, need, u) {
      LeastClass(c, need, u);
      ClassCeilingIsSmall(c, need);
    }
  }

  lemma ClassBelowWord(c: Config, u: nat)
    requires u in c.classes
    ensures 0 < u <= c.word / 2 < c.word
  {
    var k :| 0 <= k < |c.classes| && c.classes[k] == u;
    assert u <= c.classes[|c.classes| - 1];
    assert c.classes[0] <= u;
  }

  lemma ClassExists(c: Config, need: nat)
    ensures HasClass(c, need) <==> S2u(c.classes, need) != 0
    ensures HasClass(c, need) ==> need < c.word
  {
    var i := Size2Index(c.classes, need);
    if i < |c.classes| {
      assert c.classes[i] in c.classes;
      ClassBelowWord(c, c.classes[i]);
    }
    if u :| u in c.classes && need <= u {
      ClassBelowWord(c, u);
      var k :| 0 <= k < |c.classes| && c.classes[k] == u;
      assert i <= k;
    }
  }

  lemma LeastClass(c: Config, need: nat, u: nat)
    requires IsLeastClass(c, need, u)
    ensures S2u(c.classes, need) == u && need < c.word
  {
    ClassBelowWord(c, u);
    var k :| 0 <= k < |c.classes| && c.classes[k] == u;
    var i := Size2Index(c.classes, need);
    assert i <= k && c.classes[i] in c.classes;
    assert c.classes[i] <= c.classes[k];
  }

  lemma ClassCeilingIsSmall(c: Config, size: nat)
    ensures Ceil(S2u(c.classes, size), c.chunk) <= c.word / 2 < c.word
  {
    var u, half := S2u(c.classes, size), c.word / 2;
    var i := Size2Index(c.classes, size);
    assert i < |c.classes| ==> c.classes[i] <= c.classes[|c.classes| - 1];
    assert half > 0 by {
      assert c.classes[0] <= c.classes[|c.classes| - 1];
    }
    if half < Ceil(u, c.chunk) {
      MultipleGap(half, Ceil(u, c.chunk), c.chunk);
    }
  }

  /** An extent that sorts at or after the search key of `chunk_first_best_fit`. */
  predicate Sufficient(c: Config, e: Extent, want: nat) {
    QSize(c, want) <= QSize(c, e.size)
  }

  /** Position `j` holds the best fit: sufficient, of least quantised size, lowest address among those. */
  ghost predicate IsBestFit(c: Config, s: seq<Extent>, want: nat, j: nat)
  {
    && j < |s|
    && Sufficient(c, s[j], want)
    && forall i :: 0 <= i < |s| && i != j && Sufficient(c, s[i], want) ==> SzadLess(c, s[j], s[i])
  }

  /** The position of the best fit, |s| when no extent is sufficient. */
  function BestFit(c: Config, s: seq<Extent>, want: nat): (j: nat)
    ensures j <= |s|
  {
    if s == [] then 0
    else
      var n := |s| - 1;
      var j := BestFit(c, s[..n], want);
      if !Sufficient(c, s[n], want) then (if j < n then j else n + 1)
      else if j < n && SzadLess(c, s[j], s[n]) then j
      else n
  }

  lemma BestStays(c: Config, s: seq<Extent>, want: nat, n: nat, k: nat)
    requires |s| == n + 1 && IsBestFit(c, s[..n], want, k)
    requires Sufficient(c, s[n], want) ==> SzadLess(c, s[k], s[n])
    ensures IsBestFit(c, s, want, k)
  {
    var t := s[..n];
    assert s[k] == t[k];
    forall i | 0 <= i < |s| && i != k && Sufficient(c, s[i], want) ensures SzadLess(c, s[k], s[i]) {
      assert i < n ==> s[i] == t[i];
    }
  }

  lemma BestIsLast(c: Config, s: seq<Extent>, want: nat, n: nat, k: nat)
    requires |s| == n + 1 && k <= n && Sufficient(c, s[n], want)
    requires k < n ==> IsBestFit(c, s[..n], want, k) && SzadLess(c, s[n], s[k])
    requires k == n ==> forall i :: 0 <= i < n ==> !Sufficient(c, s[..n][i], want)
    ensures IsBestFit(c, s, want, n)
  {
    var t := s[..n];
    forall i | 0 <= i < n && Sufficient(c, s[i], want) ensures SzadLess(c, s[n], s[i]) {
      assert s[i] == t[i];
      assert k < n && (i == k || SzadLess(c, t[k], t[i]));
      assert t[k] == s[k];
    }
  }

  /** On extents with distinct addresses, `BestFit` is `chunk_first_best_fit`. */
  lemma {:induction false} BestFitIsBest(c: Config, s: seq<Extent>, want: nat)
    requires forall i, j :: 0 <= i < j < |s| ==> s[i].addr != s[j].addr
    ensures var j := BestFit(c, s, want);
            && (j < |s| ==> IsBestFit(c, s, want, j))
            && (j == |s| ==> forall i :: 0 <= i < |s| ==> !Sufficient(c, s[i], want))
  {
    if s != [] {
      BestFitIsBest(c, s[..|s| - 1], want);
      BestFitStep(c, s, want);
    }
  }

  /** `j` is the best fit, or there is none. */
  ghost predicate IsFit(c: Config, s: seq<Extent>, want: nat, j: nat) {
    if j < |s| then IsBestFit(c, s, want, j) else j == |s| && forall i :: 0 <= i < |s| ==> !Sufficient(c, s[i], want)
  }

  lemma BestFitStep(c: Config, s: seq<Extent>, want: nat)
    requires s != [] && forall i, j :: 0 <= i < j < |s| ==> s[i].addr != s[j].addr
    requires IsFit(c, s[..|s| - 1], want, BestFit(c, s[..|s| - 1], want))
    ensures IsFit(c, s, want, BestFit(c, s, want))
  {
    var n := |s| - 1;
    var k, j := BestFit(c, s[..n], want), BestFit(c, s, want);
    assert k < n ==> s[k] == s[..n][k] && s[k].addr != s[n].addr;
    if j == n {
      BestIsLast(c, s, want, n, k);
    } else if j < n {
      BestStays(c, s, want, n, k);
    } else {
      NoneFits(c, s, want, n);
    }
  }

  lemma NoneFits(c: Config, s: seq<Extent>, want: nat, n: nat)
    requires |s| == n + 1 && !Sufficient(c, s[n], want) && IsFit(c, s[..n], want, n)
    ensures IsFit(c, s, want, n + 1)
  {
    var t := s[..n];
    forall i | 0 <= i < |s| ensures !Sufficient(c, s[i], want) {
      assert i < n ==> s[i] == t[i];
    }
  }

  /** `extent_tree_ad_search`: the extent starting exactly at `key`. */
  function SearchAddr(s: seq<Extent>, key: nat): (j: nat)
    ensures j <= |s|
  {
    var k := LowerBound(s, key);
    if k < |s| && s[k].addr == key then k else |s|
  }

  /** Which extent `chunk_recycle` takes; |s| stands for NULL (including the size check on `new_addr`). */
  function Choose(c: Config, s: seq<Extent>, r: Request): (j: nat)
    requires r.alignment >= c.chunk
    ensures j <= |s|
  {
    match r.newAddr
    case Some(addr) =>
      var j := SearchAddr(s, addr);
      if j < |s| && s[j].size < r.size then |s| else j
    case None => BestFit(c, s, AllocSize(c, r))
  }

  /** Extent `j` is the one that serves the request: it starts at the address asked for and is large enough, or it is the best fit. */
  ghost predicate Candidate(c: Config, s: seq<Extent>, r: Request, j: nat)
    requires r.alignment >= c.chunk
  {
    && j < |s|
    && match r.newAddr
       case Some(addr) => s[j].addr == addr && s[j].size >= r.size
       case None => IsBestFit(c, s, AllocSize(c, r), j)
  }

  /** The search finds the one such extent, or there is none. */
  lemma ChooseFinds(c: Config, s: seq<Extent>, r: Request, i: nat)
    requires Requestable(c, r) && WellFormed(c, false, s)
    ensures Candidate(c, s, r, i) <==> i < |s| && i == Choose(c, s, r)
  {
    match r.newAddr
    case Some(addr) =>
      var k := LowerBound(s, addr);
      assert i < k ==> s[i].addr < addr;
      assert k < i < |s| ==> s[k].End() <= s[i].addr;
    case None =>
      BestFitIsBest(c, s, AllocSize(c, r));
  }

  /** Without an address asked for, some extent serves the request if and only if some extent is sufficient. */
  lemma CandidateExists(c: Config, s: seq<Extent>, r: Request)
    requires Requestable(c, r) && WellFormed(c, false, s) && r.newAddr.None?
    ensures (exists j :: Candidate(c, s, r, j)) <==> exists i :: 0 <= i < |s| && Sufficient(c, s[i], AllocSize(c, r))
  {
    var j := Choose(c, s, r);
    ChooseFinds(c, s, r, j);
    BestFitIsBest(c, s, AllocSize(c, r));
    if i :| 0 <= i < |s| && Sufficient(c, s[i], AllocSize(c, r)) {
      assert Candidate(c, s, r, j);
    }
  }

  function LeadSize(e: Extent, alignment: nat): nat
    requires alignment > 0
  {
    Ceil(e.addr, alignment) - e.addr
  }

  /** Aligning an address that is already a multiple of `m` skips at most `alignment - m` bytes. */
  lemma LeadIsSmall(addr: nat, alignment: nat, m: nat)
    requires m > 0 && alignment > 0 && addr % m == 0 && alignment % m == 0
    ensures Ceil(addr, alignment) - addr + m <= alignment
    ensures (Ceil(addr, alignment) - addr) % m == 0
    ensures alignment == m ==> Ceil(addr, alignment) == addr
  {
    var up := Ceil(addr, alignment);
    MultipleTrans(up, alignment, m);
    MultipleSum(addr, alignment, m);
    MultipleGap(up, addr + alignment, m);
    if addr < up {
      MultipleGap(addr, up, m);
    }
  }

  /**
   The chosen extent has room: the lead and the request fit, so the trail does not underflow,
   and the carved range is aligned and chunk-sized.
   */
  lemma ChosenFits(c: Config, cache: bool, s: seq<Extent>, r: Request)
    requires WellFormed(c, cache, s) && Requestable(c, r)
    requires AllocSize(c, r) >= r.size
    ensures var j := Choose(c, s, r);
            j < |s| ==>
              var lead := LeadSize(s[j], r.alignment);
              && lead + r.size <= s[j].size
              && (s[j].addr + lead) % r.alignment == 0
              && lead % c.chunk == 0
              && (s[j].size - lead - r.size) % c.chunk == 0
              && (s[j].addr + lead + r.size) % c.chunk == 0
              && (r.newAddr.Some? ==> lead == 0 && s[j].addr == r.newAddr.value)
  {
    var j := Choose(c, s, r);
    if j < |s| {
      var e := s[j];
      var lead := LeadSize(e, r.alignment);
      LeadIsSmall(e.addr, r.alignment, c.chunk);
      assert lead + r.size <= e.size by {
        if r.newAddr.None? {
          BestFitIsBest(c, s, AllocSize(c, r));
          BestFitIsBigEnough(c, e, r);
        }
      }
      CarveIsAligned(c.chunk, e.addr, e.size, lead, r.size);
    }
  }

  /** Quantised best fit never picks an extent smaller than `size + alignment - chunksize`. */
  lemma BestFitIsBigEnough(c: Config, e: Extent, r: Request)
    requires Requestable(c, r) && AllocSize(c, r) >= r.size
    requires Sufficient(c, e, AllocSize(c, r))
    ensures e.size >= r.size + r.alignment - c.chunk
  {
    GuardIsExact(c, r);
    RoundingAdjoint(c.classes, r.size + r.alignment - c.chunk, AllocSize(c, r));
  }

  lemma CarveIsAligned(m: nat, addr: nat, total: nat, lead: nat, size: nat)
    requires m > 0 && addr % m == 0 && total % m == 0 && lead % m == 0 && size % m == 0
    requires lead + size <= total
    ensures (total - lead - size) % m == 0 && (addr + lead + size) % m == 0
    ensures (lead + size) % m == 0
  {
    MultipleSum(lead, size, m);
    MultipleSum(addr, lead, m);
    MultipleSum(addr + lead, size, m);
    if lead + size < total {
      MultipleGap(lead + size, total, m);
    }
  }

  // ---------- chunk_recycle ----------

  function LeadPart(e: Extent, lead: nat): seq<Extent> {
    if lead != 0 then [e.(size := lead)] else []
  }

  function TrailPart(e: Extent, lead: nat, size: nat): seq<Extent>
    requires lead + size <= e.size
  {
    if lead + size != e.size then [Extent(e.addr + lead + size, e.size - lead - size, e.zeroed, e.committed)] else []
  }

  /** The list with the extent at `j` replaced by `parts`. */
  function Carve(s: seq<Extent>, j: nat, parts: seq<Extent>): seq<Extent>
    requires j < |s|
  {
    s[..j] + parts + s[j + 1..]
  }

  /** The range from the aligned address on: all of the extent behind the lead. */
  function BehindLead(e: Extent, lead: nat): Extent
    requires lead <= e.size
  {
    Extent(e.addr + lead, e.size - lead, e.zeroed, e.committed)
  }

  /** The requested range itself. */
  function Middle(e: Extent, lead: nat, size: nat): Extent {
    Extent(e.addr + lead, size, e.zeroed, e.committed)
  }

  /** The first critical section, after the extent at position `j` has been chosen. */
  function TakeAt(s: seq<Extent>, j: nat, r: Request, env: TakeEnv): Taken
    requires j < |s| && r.alignment > 0 && LeadSize(s[j], r.alignment) + r.size <= s[j].size
  {
    var e := s[j];
    var lead := LeadSize(e, r.alignment);
    var zero, commit := r.zero || e.zeroed, r.commit || e.committed;
    if lead != 0 && env.refuseLead then
      Taken(s, None, zero, commit, false, false, None)
    else if lead + r.size != e.size && (env.refuseTrail || (lead != 0 && env.nodeFails)) then
      Taken(Carve(s, j, LeadPart(e, lead)), None, zero, commit, false, false, Some(BehindLead(e, lead)))
    else
      TakeCommitted(s, j, lead, r, env)
  }

  /** Its last part: lead and trail are back, and the range may still have to be committed. */
  function TakeCommitted(s: seq<Extent>, j: nat, lead: nat, r: Request, env: TakeEnv): Taken
    requires j < |s| && lead + r.size <= s[j].size
  {
    var e := s[j];
    var zero, commit := r.zero || e.zeroed, r.commit || e.committed;
    var rest := Carve(s, j, LeadPart(e, lead) + TrailPart(e, lead, r.size));
    if !e.committed && env.refuseCommit then
      Taken(rest, None, zero, commit, false, false, Some(Middle(e, lead, r.size)))
    else
      Taken(rest, Some(e.addr + lead), zero, commit, !e.committed, zero && !e.zeroed, None)
  }

  /** The first critical section of `chunk_recycle`. */
  function Take(c: Config, s: seq<Extent>, r: Request, env: TakeEnv): Taken
    requires Requestable(c, r) && WellFormed(c, false, s)
  {
    var none := Taken(s, None, r.zero, r.commit, false, false, None);
    if AllocSize(c, r) < r.size then none
    else
      var j := Choose(c, s, r);
      ChosenFits(c, false, s, r);
      if j == |s| then none else TakeAt(s, j, r, env)
  }

  /** `chunk_recycle` without interruption: a failing exit records its range at once. */
  function Recycle(c: Config, s: seq<Extent>, r: Request, env: TakeEnv, rerecord: RecordEnv): Outcome
    requires Requestable(c, r) && WellFormed(c, false, s)
  {
    Finish(Take(c, s, r, env), rerecord)
  }

  /** The second critical section, which only a failing exit has. */
  function Finish(t: Taken, rerecord: RecordEnv): Outcome {
    match t.back
    case None => Outcome(t.free, t.ret, t.zero, t.commit, t.hooked, t.memset, None)
    case Some(e) => Outcome(Record(t.free, e, rerecord), None, t.zero, t.commit, false, false,
                            if Leaks(t.free, e, rerecord) then Some(e) else None)
  }

  // ---------- What recycling keeps ----------

  /** The range between the cut points is chunk-sized, and so are lead and trail. */
  ghost predicate Cuts(c: Config, e: Extent, lead: nat, size: nat) {
    && ChunkSized(c, e) && size > 0 && lead + size <= e.size
    && lead % c.chunk == 0 && size % c.chunk == 0
    && (e.size - lead - size) % c.chunk == 0 && (e.addr + lead + size) % c.chunk == 0
    && (e.addr + lead) % c.chunk == 0 && (e.size - lead) % c.chunk == 0
  }

  lemma ChosenCuts(c: Config, cache: bool, s: seq<Extent>, r: Request)
    requires WellFormed(c, cache, s) && Requestable(c, r) && AllocSize(c, r) >= r.size
    ensures var j := Choose(c, s, r);
            j < |s| ==> Cuts(c, s[j], LeadSize(s[j], r.alignment), r.size)
  {
    ChosenFits(c, cache, s, r);
    var j := Choose(c, s, r);
    if j < |s| {
      var lead := LeadSize(s[j], r.alignment);
      assert ChunkSized(c, s[j]);
      CarveIsAligned(c.chunk, s[j].addr, s[j].size, lead, 0);
    }
  }

  /** `p` is part of `e` and carries its flags. */
  ghost predicate PartOf(c: Config, e: Extent, p: Extent) {
    && ChunkSized(c, p) && e.addr <= p.addr && p.End() <= e.End()
    && p.zeroed == e.zeroed && p.committed == e.committed
  }

  /** `parts` are what remains of `e` once the range `x` is taken out of it. */
  ghost predicate Remains(c: Config, e: Extent, parts: seq<Extent>, x: Extent) {
    && PartOf(c, e, x)
    && (forall i :: 0 <= i < |parts| ==> PartOf(c, e, parts[i]))
    && Sorted(parts) && Coalesced(parts)
    && Outside(parts, x.addr, x.End())
    && (forall a :: Free(parts, a) <==> e.Contains(a) && !x.Contains(a))
  }

  lemma LeadTrailFree(e: Extent, lead: nat, size: nat, a: int)
    requires lead + size <= e.size
    ensures Free(LeadPart(e, lead) + TrailPart(e, lead, size), a) <==> e.Contains(a) && !Middle(e, lead, size).Contains(a)
  {
    var l, t := LeadPart(e, lead), TrailPart(e, lead, size);
    FreeConcat(l, t, a);
    if lead != 0 {
      FreeOne(l[0], a);
    }
    if lead + size != e.size {
      FreeOne(t[0], a);
    }
  }

  lemma LeadTrailParts(c: Config, e: Extent, lead: nat, size: nat)
    requires Cuts(c, e, lead, size)
    ensures var parts := LeadPart(e, lead) + TrailPart(e, lead, size);
            forall i :: 0 <= i < |parts| ==>
              PartOf(c, e, parts[i]) && (parts[i].End() <= e.addr + lead || e.addr + lead + size <= parts[i].addr)
  {
  }

  lemma LeadTrailOrder(e: Extent, lead: nat, size: nat)
    requires lead + size <= e.size && size > 0
    ensures var parts := LeadPart(e, lead) + TrailPart(e, lead, size); Sorted(parts) && Coalesced(parts)
  {
  }

  lemma LeadAndTrailRemain(c: Config, e: Extent, lead: nat, size: nat)
    requires Cuts(c, e, lead, size)
    ensures Remains(c, e, LeadPart(e, lead) + TrailPart(e, lead, size), Middle(e, lead, size))
  {
    LeadTrailParts(c, e, lead, size);
    LeadTrailOrder(e, lead, size);
    forall a ensures Free(LeadPart(e, lead) + TrailPart(e, lead, size), a) <==> e.Contains(a) && !Middle(e, lead, size).Contains(a) {
      LeadTrailFree(e, lead, size, a);
    }
  }

  lemma LeadRemains(c: Config, e: Extent, lead: nat, size: nat)
    requires Cuts(c, e, lead, size)
    ensures Remains(c, e, LeadPart(e, lead), BehindLead(e, lead))
  {
    forall a ensures Free(LeadPart(e, lead), a) <==> e.Contains(a) && !BehindLead(e, lead).Contains(a) {
      if lead != 0 {
        FreeOne(e.(size := lead), a);
      }
    }
  }

  /** Positions of the carved list. */
  lemma CarveShape(s: seq<Extent>, j: nat, parts: seq<Extent>)
    requires j < |s|
    ensures var t, n := Carve(s, j, parts), |parts|;
            && |t| == |s| + n - 1
            && (forall i :: 0 <= i < j ==> t[i] == s[i])
            && (forall i :: j <= i < j + n ==> t[i] == parts[i - j])
            && (forall i :: j + n <= i < |t| ==> t[i] == s[i - n + 1])
  {
  }

  lemma CarveFree(c: Config, s: seq<Extent>, j: nat, parts: seq<Extent>, x: Extent, a: int)
    requires j < |s| && Sorted(s) && Remains(c, s[j], parts, x)
    ensures Free(Carve(s, j, parts), a) <==> Free(s, a) && !x.Contains(a)
  {
    var front, back := s[..j], s[j + 1..];
    FreeConcat3(front, parts, back, a);
    FreeConcat3(front, [s[j]], back, a);
    FreeOne(s[j], a);
    assert s == front + [s[j]] + back;
    if s[j].Contains(a) {
      assert forall i :: 0 <= i < |front| ==> front[i] == s[i];
      assert forall i :: 0 <= i < |back| ==> back[i] == s[j + 1 + i];
      assert !Free(front, a) && !Free(back, a);
    }
  }

  lemma CarveSorted(c: Config, s: seq<Extent>, j: nat, parts: seq<Extent>)
    requires j < |s| && Sorted(s) && Sorted(parts)
    requires forall i :: 0 <= i < |parts| ==> PartOf(c, s[j], parts[i])
    ensures Sorted(Carve(s, j, parts))
  {
    CarveShape(s, j, parts);
  }

  lemma CarveWellFormed(c: Config, cache: bool, s: seq<Extent>, j: nat, parts: seq<Extent>, x: Extent)
    requires j < |s| && WellFormed(c, cache, s) && Remains(c, s[j], parts, x)
    ensures WellFormed(c, cache, Carve(s, j, parts))
    ensures Recordable(c, cache, Carve(s, j, parts), x)
  {
    var t, n := Carve(s, j, parts), |parts|;
    CarveSorted(c, s, j, parts);
    CarveShape(s, j, parts);
    forall i | 0 <= i < |t|
      ensures ChunkSized(c, t[i]) && (cache ==> !t[i].zeroed) && (t[i].End() <= x.addr || x.End() <= t[i].addr)
    {
      if j <= i < j + n {
        assert PartOf(c, s[j], parts[i - j]);
      }
    }
  }

  /** Address `a` is returned, or carried off to be recorded again. */
  predicate TakenOut(t: Taken, size: nat, a: int) {
    || (t.ret.Some? && t.ret.value <= a < t.ret.value + size)
    || (t.back.Some? && t.back.value.Contains(a))
  }

  /** What the first section does to the free addresses: it takes out exactly one range, or none. */
  ghost predicate TakesOut(s: seq<Extent>, size: nat, t: Taken) {
    && !(t.ret.Some? && t.back.Some?)
    && (forall a :: TakenOut(t, size, a) ==> Free(s, a))
    && (forall a :: Free(t.free, a) <==> Free(s, a) && !TakenOut(t, size, a))
  }

  /** Taking `x` out of the extent at `j`. */
  lemma CarveTakesOut(c: Config, cache: bool, s: seq<Extent>, j: nat, parts: seq<Extent>, x: Extent)
    requires j < |s| && WellFormed(c, cache, s) && Remains(c, s[j], parts, x)
    ensures forall a :: x.Contains(a) ==> Free(s, a)
    ensures forall a :: Free(Carve(s, j, parts), a) <==> Free(s, a) && !x.Contains(a)
  {
    forall a | x.Contains(a) ensures Free(s, a) {
      assert s[j].Contains(a);
    }
    forall a ensures Free(Carve(s, j, parts), a) <==> Free(s, a) && !x.Contains(a) {
      CarveFree(c, s, j, parts, x, a);
    }
  }

  lemma TakeAtConserves(c: Config, cache: bool, s: seq<Extent>, j: nat, r: Request, env: TakeEnv)
    requires WellFormed(c, cache, s) && r.alignment > 0
    requires j < |s| && Cuts(c, s[j], LeadSize(s[j], r.alignment), r.size)
    ensures var t := TakeAt(s, j, r, env);
            && WellFormed(c, cache, t.free) && TakesOut(s, r.size, t)
            && (t.back.Some? ==> Recordable(c, cache, t.free, t.back.value))
  {
    var e := s[j];
    var lead := LeadSize(e, r.alignment);
    var l, t := LeadPart(e, lead), TrailPart(e, lead, r.size);
    if lead != 0 && env.refuseLead {
    } else if lead + r.size != e.size && (env.refuseTrail || (lead != 0 && env.nodeFails)) {
      LeadRemains(c, e, lead, r.size);
      CarveWellFormed(c, cache, s, j, l, BehindLead(e, lead));
      CarveTakesOut(c, cache, s, j, l, BehindLead(e, lead));
    } else {
      var m := Middle(e, lead, r.size);
      LeadAndTrailRemain(c, e, lead, r.size);
      CarveWellFormed(c, cache, s, j, l + t, m);
      CarveTakesOut(c, cache, s, j, l + t, m);
      assert forall a :: m.Contains(a) <==> m.addr <= a < m.addr + r.size;
    }
  }

  /**
   The first section: a success takes exactly the returned range, which was free and is aligned; a
   failing exit takes nothing, or a range that may be recorded again.
   */
  lemma TakeConserves(c: Config, cache: bool, s: seq<Extent>, r: Request, env: TakeEnv)
    requires Requestable(c, r) && WellFormed(c, cache, s) && WellFormed(c, false, s)
    ensures var t := Take(c, s, r, env);
            && WellFormed(c, cache, t.free) && TakesOut(s, r.size, t)
            && (t.back.Some? ==> Recordable(c, cache, t.free, t.back.value))
            && (t.ret.Some? ==> t.ret.value % r.alignment == 0 && t.ret.value % c.chunk == 0
                                && (r.newAddr.Some? ==> t.ret == r.newAddr))
  {
    TakeConservesOnly(c, cache, s, r, env);
    if AllocSize(c, r) >= r.size {
      var j := Choose(c, s, r);
      ChosenFits(c, false, s, r);
      if j < |s| {
        ChosenCuts(c, false, s, r);
      }
    }
  }

  lemma TakeConservesOnly(c: Config, cache: bool, s: seq<Extent>, r: Request, env: TakeEnv)
    requires Requestable(c, r) && WellFormed(c, cache, s) && WellFormed(c, false, s)
    ensures var t := Take(c, s, r, env);
            && WellFormed(c, cache, t.free) && TakesOut(s, r.size, t)
            && (t.back.Some? ==> Recordable(c, cache, t.free, t.back.value))
  {
    if AllocSize(c, r) >= r.size {
      var j := Choose(c, s, r);
      ChosenFits(c, false, s, r);
      ChosenCuts(c, false, s, r);
      if j < |s| {
        TakeAtConserves(c, cache, s, j, r, env);
      }
    }
  }

  /** What an uninterrupted `chunk_recycle` does to the free addresses. */
  ghost predicate Accounts(s: seq<Extent>, size: nat, o: Outcome) {
    match o.ret
    case Some(p) =>
      && o.leaked.None?
      && (forall a :: p <= a < p + size ==> Free(s, a))
      && (forall a :: Free(o.free, a) <==> Free(s, a) && !(p <= a < p + size))
    case None =>
      && (o.leaked.Some? ==> forall a :: o.leaked.value.Contains(a) ==> Free(s, a))
      && (forall a :: Free(o.free, a) <==> Free(s, a) && !(o.leaked.Some? && o.leaked.value.Contains(a)))
  }

  lemma BackAccounts(c: Config, cache: bool, s: seq<Extent>, size: nat, t: Taken, e: Extent, rerecord: RecordEnv)
    requires TakesOut(s, size, t) && t.back == Some(e)
    requires WellFormed(c, cache, t.free) && Recordable(c, cache, t.free, e)
    ensures WellFormed(c, cache, Record(t.free, e, rerecord))
    ensures Accounts(s, size, Outcome(Record(t.free, e, rerecord), None, t.zero, t.commit, false, false,
                                      if Leaks(t.free, e, rerecord) then Some(e) else None))
  {
    RecordConserves(c, cache, t.free, e, rerecord);
    assert forall a :: TakenOut(t, size, a) <==> e.Contains(a);
  }

  /**
   Conservation for `chunk_recycle`: a success removes exactly the returned range, which was free and
   is aligned; a failure restores the free addresses, except for a range leaked by a failed node
   allocation while re-recording.
   */
  lemma RecycleConserves(c: Config, cache: bool, s: seq<Extent>, r: Request, env: TakeEnv, rerecord: RecordEnv)
    requires Requestable(c, r) && WellFormed(c, cache, s) && WellFormed(c, false, s)
    ensures var o := Recycle(c, s, r, env, rerecord);
            && WellFormed(c, cache, o.free)
            && Accounts(s, r.size, o)
            && (o.ret.Some? ==> o.ret.value % r.alignment == 0 && o.ret.value % c.chunk == 0
                                && (r.newAddr.Some? ==> o.ret == r.newAddr))
            && (o.leaked.Some? ==> rerecord.nodeFails)
  {
    var t := Take(c, s, r, env);
    TakeConserves(c, cache, s, r, env);
    if t.back.Some? {
      BackAccounts(c, cache, s, r.size, t, t.back.value, rerecord);
    } else if t.ret.Some? {
      assert forall a :: TakenOut(t, r.size, a) <==> t.ret.value <= a < t.ret.value + r.size;
    }
  }

  // ---------- Coalescing ----------

  /** Replacing an extent by what remains of it cannot create mergeable neighbours. */
  lemma CarveCoalesced(c: Config, s: seq<Extent>, j: nat, parts: seq<Extent>)
    requires j < |s| && Sorted(s) && Coalesced(s) && Coalesced(parts)
    requires forall i :: 0 <= i < |s| ==> s[i].size > 0
    requires forall i :: 0 <= i < |parts| ==> PartOf(c, s[j], parts[i])
    ensures Coalesced(Carve(s, j, parts))
  {
    var t, n := Carve(s, j, parts), |parts|;
    CarveShape(s, j, parts);
    forall i | 0 <= i < |t| - 1 ensures t[i].End() != t[i + 1].addr || t[i].committed != t[i + 1].committed {
      if i + 1 < j {
        assert t[i] == s[i] && t[i + 1] == s[i + 1];
      } else if j + n <= i {
        assert t[i] == s[i - n + 1] && t[i + 1] == s[i - n + 2];
      } else if j <= i && i + 1 < j + n {
        assert t[i] == parts[i - j] && t[i + 1] == parts[i - j + 1];
      } else if i + 1 == j && n > 0 {
        assert t[i] == s[j - 1] && PartOf(c, s[j], parts[0]);
        assert s[j - 1].End() <= s[j].addr;
      } else if n > 0 {
        assert PartOf(c, s[j], parts[n - 1]) && t[i + 1] == s[j + 1];
      } else {
        assert t[i] == s[j - 1] && t[i + 1] == s[j + 1];
        assert s[j - 1].End() <= s[j].addr && s[j].End() <= s[j + 1].addr;
      }
    }
  }

  /** Splitting never creates mergeable neighbours, whatever the hooks answer. */
  lemma TakeCoalesces(c: Config, cache: bool, s: seq<Extent>, r: Request, env: TakeEnv)
    requires Requestable(c, r) && WellFormed(c, cache, s) && WellFormed(c, false, s) && Coalesced(s)
    ensures Coalesced(Take(c, s, r, env).free)
  {
    if AllocSize(c, r) >= r.size {
      var j := Choose(c, s, r);
      ChosenFits(c, false, s, r);
      ChosenCuts(c, false, s, r);
      if j < |s| {
        var e := s[j];
        var lead := LeadSize(e, r.alignment);
        LeadRemains(c, e, lead, r.size);
        LeadAndTrailRemain(c, e, lead, r.size);
        CarveCoalesced(c, s, j, LeadPart(e, lead));
        CarveCoalesced(c, s, j, LeadPart(e, lead) + TrailPart(e, lead, r.size));
      }
    }
  }

  /** With a merge hook that never refuses, no exit of `chunk_recycle` leaves mergeable neighbours. */
  lemma RecycleCoalesces(c: Config, cache: bool, s: seq<Extent>, r: Request, env: TakeEnv, rerecord: RecordEnv)
    requires Requestable(c, r) && WellFormed(c, cache, s) && WellFormed(c, false, s)
    requires Coalesced(s) && !rerecord.refuseForward && !rerecord.refuseBackward
    ensures Coalesced(Recycle(c, s, r, env, rerecord).free)
  {
    var t := Take(c, s, r, env);
    TakeConserves(c, cache, s, r, env);
    TakeCoalesces(c, cache, s, r, env);
    if t.back.Some? {
      RecordCoalesces(c, cache, t.free, t.back.value, rerecord);
    }
  }

  // ---------- Zeroed and committed memory ----------

  lemma CarveTruthful(c: Config, s: seq<Extent>, j: nat, parts: seq<Extent>, x: Extent, m: Memory, exact: bool)
    requires j < |s| && Truthful(s, m, exact) && Remains(c, s[j], parts, x)
    ensures Truthful(Carve(s, j, parts), m, exact) && Truthful([x], m, exact)
  {
    var t, n := Carve(s, j, parts), |parts|;
    CarveShape(s, j, parts);
    forall i, a | 0 <= i < |t| && t[i].Contains(a) ensures Claims(m, exact, t[i], a) {
      if j <= i < j + n {
        assert PartOf(c, s[j], parts[i - j]) && s[j].Contains(a);
      }
    }
    forall a | [x][0].Contains(a) ensures Claims(m, exact, x, a) {
      assert s[j].Contains(a);
    }
  }

  /** The returned range is committed now, or the hook committed it; it is zero if the caller is told so. */
  ghost predicate Usable(t: Taken, size: nat, m: Memory) {
    t.ret.Some? && !t.hooked ==>
      forall a :: t.ret.value <= a < t.ret.value + size ==>
        a in m.committed && (t.zero && !t.memset ==> a !in m.dirty)
  }

  lemma RangeUsable(e: Extent, lead: nat, r: Request, m: Memory, exact: bool, t: Taken)
    requires Truthful([Middle(e, lead, r.size)], m, exact) && e.committed
    requires t.ret == Some(e.addr + lead) && t.memset == (t.zero && !e.zeroed)
    ensures Usable(t, r.size, m)
  {
    var x := Middle(e, lead, r.size);
    forall a | e.addr + lead <= a < e.addr + lead + r.size
      ensures a in m.committed && (t.zero && !t.memset ==> a !in m.dirty)
    {
      assert [x][0].Contains(a) && Claims(m, exact, x, a);
    }
  }

  lemma TakeAtTruthful(c: Config, s: seq<Extent>, j: nat, r: Request, env: TakeEnv, m: Memory, exact: bool)
    requires Truthful(s, m, exact) && r.alignment > 0
    requires j < |s| && Cuts(c, s[j], LeadSize(s[j], r.alignment), r.size)
    ensures var t := TakeAt(s, j, r, env);
            && Truthful(t.free, m, exact) && Usable(t, r.size, m)
            && (t.back.Some? ==> Truthful([t.back.value], m, exact))
  {
    var e := s[j];
    var lead := LeadSize(e, r.alignment);
    var l, t := LeadPart(e, lead), TrailPart(e, lead, r.size);
    if lead != 0 && env.refuseLead {
    } else if lead + r.size != e.size && (env.refuseTrail || (lead != 0 && env.nodeFails)) {
      LeadRemains(c, e, lead, r.size);
      CarveTruthful(c, s, j, l, BehindLead(e, lead), m, exact);
    } else {
      LeadAndTrailRemain(c, e, lead, r.size);
      CarveTruthful(c, s, j, l + t, Middle(e, lead, r.size), m, exact);
      if e.committed {
        RangeUsable(e, lead, r, m, exact, TakeAt(s, j, r, env));
      }
    }
  }

  /**
   The flags stay true through every split.  A success hands out committed memory, committed already
   or by the hook, and zero memory when it reports `*zero`.
   */
  lemma TakeTruthful(c: Config, s: seq<Extent>, r: Request, env: TakeEnv, m: Memory, exact: bool)
    requires Requestable(c, r) && WellFormed(c, false, s) && Truthful(s, m, exact)
    ensures var t := Take(c, s, r, env);
            && Truthful(t.free, m, exact) && Usable(t, r.size, m) && (r.zero ==> t.zero)
            && (t.back.Some? ==> Truthful([t.back.value], m, exact))
  {
    if AllocSize(c, r) >= r.size {
      var j := Choose(c, s, r);
      ChosenFits(c, false, s, r);
      ChosenCuts(c, false, s, r);
      if j < |s| {
        TakeAtTruthful(c, s, j, r, env, m, exact);
      }
    }
  }

  /** The same of an uninterrupted `chunk_recycle`, with every failing exit. */
  lemma RecycleTruthful(c: Config, s: seq<Extent>, r: Request, env: TakeEnv, rerecord: RecordEnv, m: Memory, exact: bool)
    requires Requestable(c, r) && WellFormed(c, false, s) && Truthful(s, m, exact)
    ensures Truthful(Recycle(c, s, r, env, rerecord).free, m, exact)
  {
    var t := Take(c, s, r, env);
    TakeTruthful(c, s, r, env, m, exact);
    if t.back.Some? {
      RecordTruthful(t.free, t.back.value, rerecord, m, exact);
    }
  }

  // ---------- When it succeeds, and what it reports ----------

  /** No hook that is needed to serve the request from `e` refuses, nor does the node allocator. */
  predicate Granted(e: Extent, r: Request, env: TakeEnv)
    requires r.alignment > 0
  {
    var start := Ceil(e.addr, r.alignment);
    && (start != e.addr ==> !env.refuseLead)
    && (start + r.size < e.End() ==> !env.refuseTrail && (start == e.addr || !env.nodeFails))
    && (!e.committed ==> !env.refuseCommit)
  }

  /**
   With an extent that serves the request, the first section succeeds if and only if no hook it needs
   refuses, and returns the first aligned address of that extent.  A refused lead changes nothing.
   */
  lemma TakeSucceeds(c: Config, s: seq<Extent>, r: Request, env: TakeEnv, j: nat)
    requires Requestable(c, r) && WellFormed(c, false, s) && AllocSize(c, r) >= r.size && Candidate(c, s, r, j)
    ensures var t, start := Take(c, s, r, env), Ceil(s[j].addr, r.alignment);
            && t.ret == (if Granted(s[j], r, env) then Some(start) else None)
            && (r.newAddr.Some? ==> r.newAddr == Some(start))
            && (start != s[j].addr && env.refuseLead ==> t.free == s && t.back.None?)
  {
    ChooseFinds(c, s, r, j);
    ChosenFits(c, false, s, r);
  }

  /** Without one, or without a class for the padded size, it returns NULL, changes nothing and has nothing to put back. */
  lemma TakeFindsNothing(c: Config, s: seq<Extent>, r: Request, env: TakeEnv)
    requires Requestable(c, r) && WellFormed(c, false, s)
    requires AllocSize(c, r) < r.size || forall j :: !Candidate(c, s, r, j)
    ensures Take(c, s, r, env) == Taken(s, None, r.zero, r.commit, false, false, None)
  {
    if AllocSize(c, r) >= r.size {
      ChooseFinds(c, s, r, Choose(c, s, r));
    }
  }

  /** Extent `j` serves the request, and nothing it takes is refused. */
  ghost predicate Served(c: Config, s: seq<Extent>, r: Request, env: TakeEnv, j: nat)
    requires r.alignment >= c.chunk
  {
    Candidate(c, s, r, j) && Granted(s[j], r, env)
  }

  /** What the uninterrupted call returns: the aligned address in the extent that serves it, NULL without one. */
  ghost predicate ReturnsServed(c: Config, s: seq<Extent>, r: Request, env: TakeEnv, ret: Option<nat>)
    requires r.alignment >= c.chunk
  {
    match ret
    case Some(p) => exists j: nat :: Served(c, s, r, env, j) && p == Ceil(s[j].addr, r.alignment)
    case None => forall j: nat :: !Served(c, s, r, env, j)
  }

  /** `chunk_recycle` succeeds if and only if a class holds the padded size, an extent serves the request and no needed hook refuses. */
  lemma RecycleSucceeds(c: Config, s: seq<Extent>, r: Request, env: TakeEnv, rerecord: RecordEnv)
    requires Requestable(c, r) && WellFormed(c, false, s)
    ensures HasClass(c, Need(c, r)) ==> ReturnsServed(c, s, r, env, Recycle(c, s, r, env, rerecord).ret)
    ensures !HasClass(c, Need(c, r)) || (forall j :: !Candidate(c, s, r, j)) ==>
              Recycle(c, s, r, env, rerecord) == Outcome(s, None, r.zero, r.commit, false, false, None)
  {
    SearchedSize(c, r, 0);
    if AllocSize(c, r) < r.size || forall j :: !Candidate(c, s, r, j) {
      TakeFindsNothing(c, s, r, env);
    } else {
      var j :| Candidate(c, s, r, j);
      TakeBacks(c, s, r, env);
      TakeServes(c, s, r, env, j);
    }
  }

  lemma TakeServes(c: Config, s: seq<Extent>, r: Request, env: TakeEnv, j: nat)
    requires Requestable(c, r) && WellFormed(c, false, s) && AllocSize(c, r) >= r.size && Candidate(c, s, r, j)
    ensures ReturnsServed(c, s, r, env, Take(c, s, r, env).ret)
  {
    TakeSucceeds(c, s, r, env, j);
    if Granted(s[j], r, env) {
      assert Served(c, s, r, env, j);
    }
    forall i: nat | Served(c, s, r, env, i) ensures i == j {
      ChooseFinds(c, s, r, i);
      ChooseFinds(c, s, r, j);
    }
  }

  lemma TakeBacks(c: Config, s: seq<Extent>, r: Request, env: TakeEnv)
    requires Requestable(c, r) && WellFormed(c, false, s)
    ensures Take(c, s, r, env).back.Some? ==> Take(c, s, r, env).ret.None?
  {
    if AllocSize(c, r) >= r.size {
      ChosenFits(c, false, s, r);
    }
  }

  /**
   What is reported in `*commit`.  The hook commits a decommitted range whatever the caller asked for,
   and `*commit` is only ever set from the extent's flag: so after a success it is false exactly when
   the caller passed false and the range has just been committed.
   */
  lemma CommitReport(c: Config, s: seq<Extent>, r: Request, env: TakeEnv, j: nat)
    requires Requestable(c, r) && WellFormed(c, false, s) && AllocSize(c, r) >= r.size && Candidate(c, s, r, j)
    ensures var t := Take(c, s, r, env);
            && (t.commit <==> r.commit || s[j].committed)
            && (t.hooked <==> t.ret.Some? && !s[j].committed)
            && (t.ret.Some? ==> (!t.commit <==> !r.commit && t.hooked))
  {
    ChooseFinds(c, s, r, j);
    ChosenFits(c, false, s, r);
  }

  /** And in `*zero`: it becomes true for a zeroed extent, and a success clears the range when zeros were asked for and the extent was not. */
  lemma ZeroReport(c: Config, s: seq<Extent>, r: Request, env: TakeEnv, j: nat)
    requires Requestable(c, r) && WellFormed(c, false, s) && AllocSize(c, r) >= r.size && Candidate(c, s, r, j)
    ensures var t := Take(c, s, r, env);
            && (t.zero <==> r.zero || s[j].zeroed)
            && (t.memset <==> t.ret.Some? && r.zero && !s[j].zeroed)
  {
    ChooseFinds(c, s, r, j);
    ChosenFits(c, false, s, r);
  }

  /** Whatever is split off or put back carries the flags of the extent it comes from. */
  lemma SplitKeepsFlags(c: Config, s: seq<Extent>, r: Request, env: TakeEnv, j: nat)
    requires Requestable(c, r) && WellFormed(c, false, s) && AllocSize(c, r) >= r.size && Candidate(c, s, r, j)
    ensures var t := Take(c, s, r, env);
            && (forall i :: 0 <= i < |t.free| ==> t.free[i] in s || PartOf(c, s[j], t.free[i]))
            && (t.back.Some? ==> PartOf(c, s[j], t.back.value))
  {
    ChooseFinds(c, s, r, j);
    ChosenCuts(c, false, s, r);
    SplitFlags(c, s, j, r, env);
  }

  lemma SplitFlags(c: Config, s: seq<Extent>, j: nat, r: Request, env: TakeEnv)
    requires r.alignment > 0 && j < |s| && Cuts(c, s[j], LeadSize(s[j], r.alignment), r.size)
    ensures var t := TakeAt(s, j, r, env);
            && (forall i :: 0 <= i < |t.free| ==> t.free[i] in s || PartOf(c, s[j], t.free[i]))
            && (t.back.Some? ==> PartOf(c, s[j], t.back.value))
  {
    var e := s[j];
    var lead := LeadSize(e, r.alignment);
    LeadRemains(c, e, lead, r.size);
    LeadAndTrailRemain(c, e, lead, r.size);
    CarvedFlags(c, s, j, LeadPart(e, lead), BehindLead(e, lead));
    CarvedFlags(c, s, j, LeadPart(e, lead) + TrailPart(e, lead, r.size), Middle(e, lead, r.size));
  }

  lemma CarvedFlags(c: Config, s: seq<Extent>, j: nat, parts: seq<Extent>, x: Extent)
    requires j < |s| && Remains(c, s[j], parts, x)
    ensures var t := Carve(s, j, parts); forall i :: 0 <= i < |t| ==> t[i] in s || PartOf(c, s[j], t[i])
  {
    CarveShape(s, j, parts);
  }

  /** The assumptions can be met: one chunk of four bytes aligned to eight, out of two chunks at address 4. */
  lemma RecycleExample() returns (c: Config, s: seq<Extent>, r: Request)
    ensures WellFormed(c, true, s) && Requestable(c, r) && AllocSize(c, r) >= r.size
    ensures Choose(c, s, r) == 0 && |s| == 1 && LeadSize(s[0], r.alignment) == 4 == s[0].size - r.size
  {
    c := Parameters(4, [4, 8], 16);
    s := [Extent(4, 8, false, true)];
    r := Request(None, 4, 8, false, false);
    assert Size2Index(c.classes, 8) == 1;
    assert AllocSize(c, r) == 8;
    assert s[..0] == [];
  }
}
