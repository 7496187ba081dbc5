/**
 base.c: the allocator that never frees.  A ledger of mapped chunks, each with a used prefix, is the
 specification; the tree of available space, the list of spare nodes and the three statistics are
 proved to agree with it.
 */
module BaseAllocator {
  import opened SizeClasses
  import opened Extents
  import opened Recycling
  import opened ChunkIndex
  import opened Wrappers

  /** One mapped chunk; the first `used` bytes are allocated. */
  datatype BaseChunk = BaseChunk(base: nat, size: nat, used: nat)

  /** A returned block or a carved node header. */
  datatype Block = Block(addr: nat, size: nat)

  /** Page and cacheline sizes; chunks are whole pages, pages are whole cachelines. */
  datatype Granules = Granules(chunk: nat, page: nat, line: nat)

  type Granularity = g: Granules | 0 < g.line && 0 < g.page && 0 < g.chunk && g.page % g.line == 0 && g.chunk % g.page == 0
    ghost witness Granules(1, 1, 1)

  datatype Ledger = Ledger(g: Granularity, chunks: seq<BaseChunk>, blocks: seq<Block>)

  // ---------- The ledger ----------

  ghost predicate ChunkOk(g: Granularity, k: BaseChunk) {
    && k.base % g.page == 0 && k.base % g.line == 0 && k.size % g.page == 0
    && k.used <= k.size && k.used % g.line == 0
  }

  ghost predicate Apart(lo: nat, size: nat, lo': nat, size': nat) {
    lo + size <= lo' || lo' + size' <= lo
  }

  ghost predicate InUse(k: BaseChunk, b: Block) {
    k.base <= b.addr && b.addr + b.size <= k.base + k.used
  }

  ghost predicate Placed(l: Ledger, b: Block) {
    exists i :: 0 <= i < |l.chunks| && InUse(l.chunks[i], b)
  }

  /**
   Chunks are disjoint and page-aligned; blocks are cacheline-aligned, pairwise disjoint, and each
   lies in the used prefix of some chunk.
   */
  ghost predicate LedgerOk(l: Ledger) {
    && (forall i :: 0 <= i < |l.chunks| ==> ChunkOk(l.g, l.chunks[i]))
    && (forall i, j :: 0 <= i < j < |l.chunks| ==>
          Apart(l.chunks[i].base, l.chunks[i].size, l.chunks[j].base, l.chunks[j].size))
    && (forall i :: 0 <= i < |l.blocks| ==> l.blocks[i].addr % l.g.line == 0 && Placed(l, l.blocks[i]))
    && (forall i, j :: 0 <= i < j < |l.blocks| ==>
          Apart(l.blocks[i].addr, l.blocks[i].size, l.blocks[j].addr, l.blocks[j].size))
  }

  ghost function Used(ks: seq<BaseChunk>): nat {
    if ks == [] then 0 else Used(ks[..|ks| - 1]) + ks[|ks| - 1].used
  }

  ghost function Mapped(ks: seq<BaseChunk>): nat {
    if ks == [] then 0 else Mapped(ks[..|ks| - 1]) + ks[|ks| - 1].size
  }

  /** Whole pages touched: `PAGE_CEILING(used end)` minus the base, chunk by chunk. */
  ghost function Resident(g: Granularity, ks: seq<BaseChunk>): nat {
    if ks == [] then 0 else Resident(g, ks[..|ks| - 1]) + Ceil(ks[|ks| - 1].used, g.page)
  }

  /** The three running statistics, and what they ought to be. */
  datatype Stats = Stats(allocatedBytes: nat, residentBytes: nat, mappedBytes: nat)

  ghost function StatsOf(l: Ledger): Stats {
    Stats(Used(l.chunks), Resident(l.g, l.chunks), Mapped(l.chunks))
  }

  /** The order that `base_stats_get` asserts. */
  lemma {:induction false} StatsOrdered(g: Granularity, ks: seq<BaseChunk>)
    requires forall i :: 0 <= i < |ks| ==> ChunkOk(g, ks[i])
    ensures Used(ks) <= Resident(g, ks) <= Mapped(ks)
  {
    if ks != [] {
      var k := ks[|ks| - 1];
      StatsOrdered(g, ks[..|ks| - 1]);
      assert ChunkOk(g, k);
      if k.used < Ceil(k.used, g.page) && k.size < Ceil(k.used, g.page) {
        MultipleGap(k.size, Ceil(k.used, g.page), g.page);
      }
    }
  }

  lemma {:induction false} SumsAfterUse(g: Granularity, ks: seq<BaseChunk>, i: nat, n: nat)
    requires i < |ks|
    ensures var ks' := ks[i := ks[i].(used := ks[i].used + n)];
            && Used(ks') == Used(ks) + n
            && Mapped(ks') == Mapped(ks)
            && Resident(g, ks') == Resident(g, ks) - Ceil(ks[i].used, g.page) + Ceil(ks[i].used + n, g.page)
  {
    var ks' := ks[i := ks[i].(used := ks[i].used + n)];
    var m := |ks| - 1;
    if i < m {
      SumsAfterUse(g, ks[..m], i, n);
      assert ks'[..m] == ks[..m][i := ks[i].(used := ks[i].used + n)];
    } else {
      assert ks'[..m] == ks[..m];
    }
  }

  lemma SumsAfterMap(g: Granularity, ks: seq<BaseChunk>, k: BaseChunk)
    ensures Used(ks + [k]) == Used(ks) + k.used
    ensures Mapped(ks + [k]) == Mapped(ks) + k.size
    ensures Resident(g, ks + [k]) == Resident(g, ks) + Ceil(k.used, g.page)
  {
    assert (ks + [k])[..|ks|] == ks;
  }

  /** Carve `n` bytes off the unused part of chunk `i`. */
  ghost function Carved(l: Ledger, i: nat, n: nat): Ledger
    requires i < |l.chunks|
  {
    var k := l.chunks[i];
    Ledger(l.g, l.chunks[i := k.(used := k.used + n)], l.blocks + [Block(k.base + k.used, n)])
  }

  /** A carved block is aligned and disjoint from every earlier one. */
  lemma CarvedOk(l: Ledger, i: nat, n: nat)
    requires LedgerOk(l) && i < |l.chunks| && n % l.g.line == 0
    requires l.chunks[i].used + n <= l.chunks[i].size
    ensures LedgerOk(Carved(l, i, n))
  {
    var k := l.chunks[i];
    var l' := Carved(l, i, n);
    var b := Block(k.base + k.used, n);
    assert ChunkOk(l.g, k);
    MultipleSum(k.used, n, l.g.line);
    MultipleSum(k.base, k.used, l.g.line);
    assert InUse(l'.chunks[i], b);
    forall j | 0 <= j < |l.blocks|
      ensures Placed(l', l.blocks[j]) && Apart(l.blocks[j].addr, l.blocks[j].size, b.addr, b.size)
    {
      assert Placed(l, l.blocks[j]);
      var m :| 0 <= m < |l.chunks| && InUse(l.chunks[m], l.blocks[j]);
      assert InUse(l'.chunks[m], l.blocks[j]);
      if m != i {
        assert ChunkOk(l.g, l.chunks[m]);
        assert Apart(l.chunks[m].base, l.chunks[m].size, k.base, k.size);
      }
    }
  }

  ghost predicate Mappable(l: Ledger, base: nat, size: nat) {
    && base % l.g.page == 0 && base % l.g.line == 0 && size % l.g.page == 0
    && forall i :: 0 <= i < |l.chunks| ==> Apart(l.chunks[i].base, l.chunks[i].size, base, size)
  }

  /** Map a new chunk. */
  ghost function Opened(l: Ledger, base: nat, size: nat): Ledger {
    Ledger(l.g, l.chunks + [BaseChunk(base, size, 0)], l.blocks)
  }

  lemma OpenedOk(l: Ledger, base: nat, size: nat)
    requires LedgerOk(l) && Mappable(l, base, size)
    ensures LedgerOk(Opened(l, base, size))
  {
    var l' := Opened(l, base, size);
    forall j | 0 <= j < |l.blocks| ensures Placed(l', l.blocks[j]) {
      assert Placed(l, l.blocks[j]);
      var m :| 0 <= m < |l.chunks| && InUse(l.chunks[m], l.blocks[j]);
      assert InUse(l'.chunks[m], l.blocks[j]);
    }
  }

  /** Rounding commutes with a page-aligned base, so the charges per allocation telescope. */
  lemma CeilShift(base: nat, x: nat, page: nat)
    requires page > 0 && base % page == 0
    ensures Ceil(base + x, page) == base + Ceil(x, page)
  {
    var a, b := Ceil(base + x, page), base + Ceil(x, page);
    MultipleSum(base, Ceil(x, page), page);
    if a < b {
      MultipleGap(a, b, page);
    } else if b < a {
      MultipleGap(b, a, page);
    }
  }

  // ---------- The allocator ----------

  /** The extent is exactly the unused part of chunk `i`. */
  ghost predicate Suffix(l: Ledger, i: nat, e: Extent) {
    && i < |l.chunks|
    && e.addr == l.chunks[i].base + l.chunks[i].used
    && 0 < e.size && l.chunks[i].used + e.size == l.chunks[i].size
  }

  /** Carving one chunk or mapping another does not touch the unused part of the rest. */
  lemma SuffixElsewhere(l: Ledger, i: nat, n: nat, base: nat, size: nat, j: nat, e: Extent)
    requires Suffix(l, j, e)
    ensures i < |l.chunks| && i != j ==> Suffix(Carved(l, i, n), j, e)
    ensures Suffix(Opened(l, base, size), j, e)
  {
  }

  ghost function TotalSize(s: seq<Extent>): nat {
    if s == [] then 0 else TotalSize(s[..|s| - 1]) + s[|s| - 1].size
  }

  lemma {:induction false} TotalWith(s: seq<Extent>, k: nat, e: Extent)
    requires k <= |s|
    ensures TotalSize(With(s, k, e)) == TotalSize(s) + e.size
  {
    var t := With(s, k, e);
    if k == |s| {
      assert t[..|t| - 1] == s;
    } else {
      TotalWith(s[..|s| - 1], k, e);
      assert t[..|t| - 1] == With(s[..|s| - 1], k, e);
    }
  }

  lemma {:induction false} TotalWithout(s: seq<Extent>, k: nat)
    requires k < |s|
    ensures TotalSize(Without(s, k)) + s[k].size == TotalSize(s)
  {
    var t, m := Without(s, k), |s| - 1;
    if k == m {
      assert t == s[..m];
    } else {
      TotalWithout(s[..m], k);
      assert t[..m - 1] == Without(s[..m], k);
      assert t[m - 1] == s[m];
    }
  }

  /** Unused parts of different chunks start at different addresses. */
  lemma SuffixesDiffer(l: Ledger, i: nat, j: nat, d: Extent, e: Extent)
    requires LedgerOk(l) && Suffix(l, i, d) && Suffix(l, j, e) && i != j
    ensures d.addr != e.addr
  {
    assert ChunkOk(l.g, l.chunks[i]) && ChunkOk(l.g, l.chunks[j]);
    var lo, hi := if i < j then i else j, if i < j then j else i;
    assert Apart(l.chunks[lo].base, l.chunks[lo].size, l.chunks[hi].base, l.chunks[hi].size);
  }

  /** The statistics of one allocation: the page boundaries it crosses are charged as resident. */
  function Charged(s: Stats, g: Granularity, at: nat, n: nat): Stats
    requires Ceil(at, g.page) <= s.residentBytes + Ceil(at + n, g.page)
  {
    Stats(s.allocatedBytes + n, s.residentBytes + Ceil(at + n, g.page) - Ceil(at, g.page), s.mappedBytes)
  }

  lemma CarveStats(l: Ledger, i: nat, n: nat)
    requires i < |l.chunks| && l.chunks[i].base % l.g.page == 0
    ensures var at := l.chunks[i].base + l.chunks[i].used;
            && Ceil(at, l.g.page) <= Resident(l.g, l.chunks) + Ceil(at + n, l.g.page)
            && StatsOf(Carved(l, i, n)) == Charged(StatsOf(l), l.g, at, n)
  {
    var k := l.chunks[i];
    SumsAfterUse(l.g, l.chunks, i, n);
    ChargeShift(k.base, k.used, n, l.g.page, Resident(l.g, l.chunks), Resident(l.g, Carved(l, i, n).chunks));
  }

  lemma ChargeShift(base: nat, used: nat, n: nat, page: nat, before: nat, after: nat)
    requires page > 0 && base % page == 0 && after == before - Ceil(used, page) + Ceil(used + n, page)
    ensures Ceil(base + used, page) <= before + Ceil(base + used + n, page)
    ensures after == before + Ceil(base + used + n, page) - Ceil(base + used, page)
  {
    CeilShift(base, used, page);
    CeilShift(base, used + n, page);
  }

  /** The running statistics stay what the ledger says they ought to be. */
  lemma CarveFacts(l: Ledger, i: nat, n: nat)
    requires LedgerOk(l) && i < |l.chunks| && l.chunks[i].used + n <= l.chunks[i].size && n % l.g.line == 0
    ensures var at := l.chunks[i].base + l.chunks[i].used;
            && LedgerOk(Carved(l, i, n))
            && Ceil(at, l.g.page) <= Resident(l.g, l.chunks) + Ceil(at + n, l.g.page)
            && StatsOf(Carved(l, i, n)) == Charged(StatsOf(l), l.g, at, n)
  {
    assert ChunkOk(l.g, l.chunks[i]);
    CarveStats(l, i, n);
    CarvedOk(l, i, n);
  }

  /** The ledger after `base_chunk_alloc`: a new chunk whose first `nsize` bytes hold a node header. */
  ghost function NewChunk(l: Ledger, base: nat, csize: nat, nsize: nat): Ledger {
    if nsize == 0 then Opened(l, base, csize) else Carved(Opened(l, base, csize), |l.chunks|, nsize)
  }

  function MapStats(s: Stats, g: Granularity, csize: nat, nsize: nat): Stats {
    Stats(s.allocatedBytes + nsize, s.residentBytes + Ceil(nsize, g.page), s.mappedBytes + csize)
  }

  /** The books are in order: a proper ledger, and statistics that agree with it. */
  ghost predicate Books(l: Ledger, g: Granularity, s: Stats) {
    l.g == g && LedgerOk(l) && s == StatsOf(l)
  }

  lemma NewChunkFacts(l: Ledger, base: nat, csize: nat, nsize: nat)
    requires LedgerOk(l) && Mappable(l, base, csize) && nsize <= csize && nsize % l.g.line == 0
    ensures Books(NewChunk(l, base, csize, nsize), l.g, MapStats(StatsOf(l), l.g, csize, nsize))
    ensures l.blocks <= NewChunk(l, base, csize, nsize).blocks
  {
    OpenedOk(l, base, csize);
    SumsAfterMap(l.g, l.chunks, BaseChunk(base, csize, 0));
    if nsize > 0 {
      var o := Opened(l, base, csize);
      CarveFacts(o, |l.chunks|, nsize);
      CeilShift(base, 0, l.g.page);
      CeilShift(base, nsize, l.g.page);
    }
  }

  /** `chunk_alloc_base`. */
  function ChunkFrom(os: nat -> Option<nat>, csize: nat): Option<nat> {
    os(csize)
  }

  /** What the operating system promises: chunk-aligned memory that is not mapped already. */
  ghost predicate Honest(os: nat -> Option<nat>, l: Ledger) {
    forall csize :: ChunkFrom(os, csize).Some? ==>
      ChunkFrom(os, csize).value % l.g.chunk == 0 &&
      forall i :: 0 <= i < |l.chunks| ==> Apart(l.chunks[i].base, l.chunks[i].size, ChunkFrom(os, csize).value, csize)
  }

  lemma HonestIsMappable(os: nat -> Option<nat>, l: Ledger, csize: nat)
    requires Honest(os, l) && csize % l.g.chunk == 0
    ensures ChunkFrom(os, csize).Some? ==> Mappable(l, ChunkFrom(os, csize).value, csize)
  {
    if ChunkFrom(os, csize).Some? {
      ChunkIsMappable(l, ChunkFrom(os, csize).value, csize);
    }
  }

  lemma ChunkIsMappable(l: Ledger, base: nat, size: nat)
    requires base % l.g.chunk == 0 && size % l.g.chunk == 0
    requires forall i :: 0 <= i < |l.chunks| ==> Apart(l.chunks[i].base, l.chunks[i].size, base, size)
    ensures Mappable(l, base, size)
  {
    MultipleTrans(base, l.g.chunk, l.g.page);
    MultipleTrans(base, l.g.page, l.g.line);
    MultipleTrans(size, l.g.chunk, l.g.page);
  }

  // ---------- When a block is found, and where ----------

  /** Free space whose size is the least that suffices, at the lowest address among those. */
  ghost predicate BestSpace(c: Config, s: seq<Extent>, want: nat, b: Block) {
    exists k: nat :: IsBestFit(c, s, want, k) && b == Block(s[k].addr, s[k].size)
  }

  ghost predicate NoSpace(c: Config, s: seq<Extent>, want: nat) {
    forall i :: 0 <= i < |s| ==> !Sufficient(c, s[i], want)
  }

  /** The first sufficient extent, |s| if there is none. */
  ghost function FirstFit(c: Config, s: seq<Extent>, want: nat): (k: nat)
    ensures k <= |s|
  {
    if s == [] || Sufficient(c, s[0], want) then 0 else 1 + FirstFit(c, s[1..], want)
  }

  lemma {:induction false} FirstFitIs(c: Config, s: seq<Extent>, want: nat, k: nat)
    requires k <= |s| && (k < |s| ==> Sufficient(c, s[k], want))
    requires forall i :: 0 <= i < k ==> !Sufficient(c, s[i], want)
    ensures FirstFit(c, s, want) == k
  {
    if k > 0 {
      FirstFitIs(c, s[1..], want, k - 1);
    }
  }

  lemma {:induction false} FirstFits(c: Config, s: seq<Extent>, want: nat)
    ensures var k := FirstFit(c, s, want);
            && (k < |s| ==> Sufficient(c, s[k], want))
            && forall i :: 0 <= i < k ==> !Sufficient(c, s[i], want)
  {
    if s != [] && !Sufficient(c, s[0], want) {
      FirstFits(c, s[1..], want);
      var k := FirstFit(c, s[1..], want);
      forall i | 0 <= i < k + 1 ensures !Sufficient(c, s[i], want) {
        assert i > 0 ==> s[i] == s[1..][i - 1];
      }
    }
  }

  /** In size order, the first sufficient extent is the best. */
  lemma FirstIsBest(c: Config, s: seq<Extent>, want: nat)
    requires SzadOrdered(c, s)
    ensures var k := FirstFit(c, s, want);
            if k < |s| then BestSpace(c, s, want, Block(s[k].addr, s[k].size)) && !NoSpace(c, s, want)
            else NoSpace(c, s, want)
  {
    FirstFits(c, s, want);
    var k := FirstFit(c, s, want);
    if k < |s| {
      assert IsBestFit(c, s, want, k);
    }
  }

  /** The room a node header takes in a new chunk: none when a spare node can describe the chunk. */
  function HeaderRoom(g: Granularity, nodeSize: nat, spare: bool): (n: nat)
    ensures n % g.line == 0 && (nodeSize > 0 ==> (n == 0 <==> spare))
  {
    if spare then 0 else Ceil(nodeSize, g.line)
  }

  /** The size of the chunk asked of the operating system. */
  function ChunkSize(g: Granularity, nodeSize: nat, spare: bool, n: nat): (m: nat)
    ensures HeaderRoom(g, nodeSize, spare) + n <= m && m % g.chunk == 0
  {
    Ceil(n + HeaderRoom(g, nodeSize, spare), g.chunk)
  }

  /** Where the chunks are, and how large. */
  ghost function Layout(ks: seq<BaseChunk>): (bs: seq<Block>)
    ensures |bs| == |ks| && forall i :: 0 <= i < |ks| ==> bs[i] == Block(ks[i].base, ks[i].size)
  {
    seq(|ks|, i requires 0 <= i < |ks| => Block(ks[i].base, ks[i].size))
  }

  lemma LayoutAfterUse(ks: seq<BaseChunk>, i: nat, n: nat)
    requires i < |ks|
    ensures Layout(ks[i := ks[i].(used := n)]) == Layout(ks)
  {
  }

  lemma NewChunkLayout(l: Ledger, a: nat, m: nat, nsize: nat)
    ensures Layout(NewChunk(l, a, m, nsize).chunks) == Layout(l.chunks) + [Block(a, m)]
  {
    var ks := l.chunks + [BaseChunk(a, m, 0)];
    assert Layout(ks) == Layout(l.chunks) + [Block(a, m)];
    LayoutAfterUse(ks, |l.chunks|, nsize);
  }

  /** The block is the last one, behind those there were (and perhaps a node header). */
  ghost predicate Appended(before: seq<Block>, after: seq<Block>, b: Block) {
    after != [] && before <= after[..|after| - 1] && after[|after| - 1] == b
  }

  /** The space that was found, the chunks mapped by then, and how many nodes are spare. */
  datatype Found = Found(space: Option<Block>, layout: seq<Block>, spares: nat)

  /** A chunk of size `m` is mapped, `nsize` bytes carved for its header and a spare node taken, if the operating system has one to give. */
  ghost function Mapping(os: nat -> Option<nat>, m: nat, nsize: nat, layout: seq<Block>, spares: nat): Found
    requires nsize <= m
  {
    match ChunkFrom(os, m)
    case None => Found(None, layout, spares)
    case Some(a) => Found(Some(Block(a + nsize, m - nsize)), layout + [Block(a, m)], if spares > 0 then spares - 1 else 0)
  }

  /** Space comes from the extent at `k` of the tree, or, if there is none, from a new chunk. */
  ghost function Finding(g: Granularity, nodeSize: nat, s: seq<Extent>, k: nat, n: nat, os: nat -> Option<nat>, before: Found): Found {
    if k < |s| then Found(Some(Block(s[k].addr, s[k].size)), before.layout, before.spares)
    else Mapping(os, ChunkSize(g, nodeSize, before.spares > 0, n), HeaderRoom(g, nodeSize, before.spares > 0), before.layout, before.spares)
  }

  /**
   What a request for `n` bytes gets.  If some space in the tree suffices, the start of the best, and no
   chunk is mapped.  If none does, the start of a new chunk behind its header, and that is the one chunk
   mapped; NULL if and only if the operating system refuses it.  A node whose space is used up is spare again.
   */
  ghost predicate Serves(c: Config, g: Granularity, nodeSize: nat, s: seq<Extent>, n: nat, os: nat -> Option<nat>,
                         before: Found, after: Found, ret: Option<nat>)
  {
    if NoSpace(c, s, S2u(c.classes, n)) then ServesFromChunk(g, nodeSize, n, os, before, after, ret)
    else ServesFromTree(c, s, n, before, after, ret)
  }

  ghost predicate ServesFromTree(c: Config, s: seq<Extent>, n: nat, before: Found, after: Found, ret: Option<nat>) {
    && after.layout == before.layout
    && exists b :: BestSpace(c, s, S2u(c.classes, n), b) && ret == Some(b.addr)
                   && after.spares == before.spares + if b.size == n then 1 else 0
  }

  ghost predicate ServesFromChunk(g: Granularity, nodeSize: nat, n: nat, os: nat -> Option<nat>,
                                  before: Found, after: Found, ret: Option<nat>)
  {
    var nsize := if before.spares == 0 then Ceil(nodeSize, g.line) else 0;
    var m := Ceil(n + nsize, g.chunk);
    match ChunkFrom(os, m)
    case None => ret.None? && after.layout == before.layout && after.spares == before.spares
    case Some(a) =>
      && ret == Some(a + nsize)
      && after.layout == before.layout + [Block(a, m)]
      && after.spares == (if before.spares > 0 then before.spares - 1 else 0) + (if m == nsize + n then 1 else 0)
  }

  /** What is left once the request is carved off the front of the space found. */
  ghost function Spent(f: Found, n: nat): Found {
    Found(None, f.layout, f.spares + if f.space.Some? && f.space.value.size == n then 1 else 0)
  }

  ghost function StartOf(f: Found): Option<nat> {
    match f.space
    case None => None
    case Some(b) => Some(b.addr)
  }

  /** What a request finds, searching the tree first. */
  ghost function Serving(c: Config, g: Granularity, nodeSize: nat, s: seq<Extent>, n: nat, os: nat -> Option<nat>, before: Found): Found {
    Finding(g, nodeSize, s, FirstFit(c, s, S2u(c.classes, n)), n, os, before)
  }

  /** Searching in size order, and carving the request off the front of what is found, serves the request. */
  lemma FindingServes(c: Config, g: Granularity, nodeSize: nat, s: seq<Extent>, n: nat, os: nat -> Option<nat>, before: Found)
    requires SzadOrdered(c, s)
    ensures var f := Serving(c, g, nodeSize, s, n, os, before);
            Serves(c, g, nodeSize, s, n, os, before, Spent(f, n), StartOf(f))
  {
    FirstIsBest(c, s, S2u(c.classes, n));
    var k := FirstFit(c, s, S2u(c.classes, n));
    if k < |s| {
      assert BestSpace(c, s, S2u(c.classes, n), Block(s[k].addr, s[k].size));
    } else {
      MappingServes(g, nodeSize, n, os, before);
    }
  }

  lemma MappingFits(g: Granularity, nodeSize: nat, spare: bool, n: nat, os: nat -> Option<nat>, layout: seq<Block>, spares: nat)
    ensures var f := Mapping(os, ChunkSize(g, nodeSize, spare, n), HeaderRoom(g, nodeSize, spare), layout, spares);
            f.space.Some? ==> f.space.value.size >= n
  {
  }

  lemma MappingServes(g: Granularity, nodeSize: nat, n: nat, os: nat -> Option<nat>, before: Found)
    ensures var f := Mapping(os, ChunkSize(g, nodeSize, before.spares > 0, n), HeaderRoom(g, nodeSize, before.spares > 0),
                             before.layout, before.spares);
            ServesFromChunk(g, nodeSize, n, os, before, Spent(f, n), StartOf(f))
  {
  }

  class Base {
    const c: Config
    const g: Granularity
    const nodeSize: nat             // sizeof(extent_node_t)
    var avail: seq<ExtentNode>      // base_avail_szad
    var spare: seq<ExtentNode>      // base_nodes
    var stats: Stats                // base_allocated, base_resident, base_mapped
    ghost var ledger: Ledger
    ghost var home: map<ExtentNode, nat>  // the chunk a node describes
    ghost var live: set<ExtentNode>       // the nodes that describe unused space
    ghost var nodes: set<ExtentNode>      // every node: live, spare or at hand

    /** The space at hand, with the chunks and the spare nodes. */
    ghost function Now(node: ExtentNode?): Found
      reads this`ledger, this`spare, node
    {
      Found(SpaceOf(node), Layout(ledger.chunks), |spare|)
    }

    /** Every live node describes exactly the unused part of its own chunk. */
    ghost predicate Homes()
      reads this`ledger, this`home, this`live, live
    {
      && (forall n :: n in live ==> n in home && Suffix(ledger, home[n], n.View()))
      && (forall n, m :: n in live && m in live && n != m ==> home[n] != home[m])
    }

    ghost predicate Spares()
      reads this`live, this`nodes, this`spare
    {
      && live <= nodes
      && (forall n :: n in spare ==> n in nodes && n !in live)
      && (forall i, j :: 0 <= i < j < |spare| ==> spare[i] != spare[j])
    }

    ghost predicate Tree()
      reads this`live, this`avail, avail
    {
      && SzadOrdered(c, Views(avail))
      && forall n :: n in avail ==> n in live
    }

    /** What also holds while a node is out of the tree. */
    ghost predicate Shape()
      reads this, avail, live
    {
      Tree() && Homes() && Spares()
    }

    /** Available space plus allocated space is mapped space. */
    ghost predicate Valid()
      reads this, avail, live
    {
      && Shape()
      && Books(ledger, g, stats)
      && stats.allocatedBytes + TotalSize(Views(avail)) == stats.mappedBytes
    }

    /** The same with one node out of the tree, or none. */
    ghost predicate ValidWith(node: ExtentNode?)
      reads this, avail, live, node
    {
      && Shape()
      && Books(ledger, g, stats)
      && (node != null ==> node in live && node !in avail)
      && stats.allocatedBytes + TotalSize(Views(avail)) + (if node == null then 0 else node.size) == stats.mappedBytes
    }

    constructor (c: Config, g: Granularity, nodeSize: nat)
      ensures Valid() && ledger == Ledger(g, [], []) && this.c == c && this.g == g && this.nodeSize == nodeSize
    {
      this.c, this.g, this.nodeSize := c, g, nodeSize;
      avail, spare, stats := [], [], Stats(0, 0, 0);
      ledger, home, live, nodes := Ledger(g, [], []), map[], {}, {};
    }

    /** `base_stats_get`, with the order it asserts. */
    method StatsGet() returns (a: nat, r: nat, m: nat)
      requires Valid()
      ensures Stats(a, r, m) == stats
      ensures a <= r <= m
    {
      assert forall i :: 0 <= i < |ledger.chunks| ==> ChunkOk(g, ledger.chunks[i]);
      StatsOrdered(g, ledger.chunks);
      a, r, m := stats.allocatedBytes, stats.residentBytes, stats.mappedBytes;
    }

    /** The place in the tree of the best-fitting node, |avail| if none suffices. */
    method FindFit(csize: nat, ghost s: seq<Extent>) returns (k: nat)
      requires S2u(c.classes, csize) != 0 && s == Views(avail)
      requires csize == 0 ==> !NoSpace(c, s, S2u(c.classes, 0))
      ensures k == FirstFit(c, s, S2u(c.classes, csize)) && k <= |avail|
      ensures k < |avail| ==> csize <= avail[k].size
      ensures k < |avail| || csize > 0
    {
      var want := S2u(c.classes, csize);
      k := SzadNsearch(c, avail, want);
      FirstFitIs(c, s, want, k);
      if k < |avail| {
        FitIsBigEnough(c, csize, avail[k].size);
      }
    }

    /** Take a node out of the tree. */
    method TakeNode(k: nat) returns (node: ExtentNode)
      requires Valid() && k < |avail|
      modifies this`avail
      ensures ValidWith(node) && node.View() == old(Views(avail))[k] && node in nodes
    {
      node := avail[k];
      Remove(k);
    }

    method Remove(k: nat)
      requires Tree() && k < |avail|
      modifies this`avail
      ensures Tree() && old(avail)[k] !in avail
      ensures TotalSize(Views(avail)) + old(avail)[k].size == TotalSize(old(Views(avail)))
    {
      ghost var s := Views(avail);
      SizeDistinct(c, avail);
      RemoveMembers(avail, k);
      RemoveOrdered(c, s, k);
      TotalWithout(s, k);
      ViewsWithout(avail, k);
      avail := avail[..k] + avail[k + 1..];
    }

    /** Put a node with its remaining space back into the tree. */
    method PutAvail(node: ExtentNode)
      requires Tree() && node in live
      requires forall n :: n in avail ==> n.addr != node.addr
      modifies this`avail
      ensures Tree()
      ensures TotalSize(Views(avail)) == TotalSize(old(Views(avail))) + node.size
    {
      ghost var s := Views(avail);
      ghost var k := PlaceAvail(node);
      TotalWith(s, k, node.View());
    }

    method PlaceAvail(node: ExtentNode) returns (ghost p: nat)
      requires Tree() && node in live
      requires forall n :: n in avail ==> n.addr != node.addr
      modifies this`avail
      ensures Tree() && p <= |old(avail)| && Views(avail) == With(old(Views(avail)), p, node.View())
    {
      var k := SzadPlace(c, avail, node);
      InsertNode(c, avail, k, node);
      InsertMembers(avail, k, node);
      avail := avail[..k] + [node] + avail[k..];
      p := k;
    }

    /** The node keeps the space behind the block. */
    method Shrink(node: ExtentNode, csize: nat)
      requires Shape() && node in live && node !in avail && csize < node.size
      requires forall n :: n in avail ==> n.addr != node.addr + csize
      modifies this`avail, this`ledger, node
      ensures Shape() && ledger == Carved(old(ledger), home[node], csize)
      ensures TotalSize(Views(avail)) + csize == TotalSize(old(Views(avail))) + old(node.size)
    {
      ghost var s := Views(avail);
      assert Suffix(ledger, home[node], node.View());
      ledger := Carved(ledger, home[node], csize);
      node.addr := node.addr + csize;
      node.size := node.size - csize;
      assert Views(avail) == s;
      PutAvail(node);
    }

    /** The node has no space left and joins the spare nodes (`base_node_dalloc`). */
    method Retire(node: ExtentNode, csize: nat)
      requires Shape() && node in live && node !in avail && csize == node.size
      modifies this`live, this`spare, this`ledger
      ensures Shape() && ledger == Carved(old(ledger), home[node], csize) && spare == [node] + old(spare)
    {
      assert home[node] < |ledger.chunks|;
      Leave(node, csize);
      PushSpare(node);
    }

    /** The node no longer describes space; its chunk is used up. */
    method Leave(node: ExtentNode, csize: nat)
      requires Shape() && node in live && node !in avail && home[node] < |ledger.chunks|
      modifies this`live, this`ledger
      ensures Shape() && ledger == Carved(old(ledger), home[node], csize) && live == old(live) - {node}
    {
      ghost var l := ledger;
      ledger := Carved(ledger, home[node], csize);
      live := live - {node};
      forall n | n in live ensures Suffix(ledger, home[n], n.View()) {
        SuffixElsewhere(l, home[node], csize, 0, 0, home[n], n.View());
      }
    }

    method PushSpare(node: ExtentNode)
      requires Spares() && node in nodes && node !in live && node !in spare
      modifies this`spare
      ensures Spares() && spare == [node] + old(spare)
    {
      spare := [node] + spare;
    }

    /** Use the first `csize` bytes of the node at hand (the tail of `base_alloc`). */
    method UseNode(node: ExtentNode, csize: nat) returns (ret: nat)
      requires Shape() && node in live && node !in avail && csize <= node.size
      requires csize < node.size ==> forall n :: n in avail ==> n.addr != node.addr + csize
      modifies this`avail, this`ledger, this`live, this`spare, node
      ensures Shape() && ret == old(node.addr) && ledger == Carved(old(ledger), home[node], csize)
      ensures spare == if csize < old(node.size) then old(spare) else [node] + old(spare)
      ensures TotalSize(Views(avail)) + csize == TotalSize(old(Views(avail))) + old(node.size)
    {
      ret := node.addr;
      if node.size > csize {
        Shrink(node, csize);
      } else {
        Retire(node, csize);
      }
    }

    /** `base_node_try_alloc`. */
    method NodeTryAlloc() returns (node: ExtentNode?)
      requires Valid()
      modifies this`spare
      ensures Valid() && (node == null <==> old(spare) == []) && Views(avail) == old(Views(avail))
      ensures node == null ==> spare == old(spare)
      ensures node != null ==> old(spare) == [node] + spare && node in nodes && node !in live && node !in spare
    {
      if spare == [] {
        return null;
      }
      ghost var v := Views(avail);
      node := PopSpare();
      assert Views(avail) == v;
    }

    method PopSpare() returns (node: ExtentNode)
      requires Spares() && spare != []
      modifies this`spare
      ensures Spares() && old(spare) == [node] + spare
      ensures node in nodes && node !in live && node !in spare
    {
      assert spare == [spare[0]] + spare[1..];
      node := spare[0];
      spare := spare[1..];
    }

    /** `base_node_dalloc`. */
    method NodeDalloc(node: ExtentNode)
      requires Valid() && node in nodes && node !in live && node !in spare
      modifies this`spare
      ensures Valid() && spare == [node] + old(spare)
    {
      PushSpare(node);
    }

    /** The node describes all of a newly mapped chunk. */
    method OpenChunk(node: ExtentNode, addr: nat, csize: nat)
      requires Shape() && node !in live && node !in spare && csize > 0
      modifies this`ledger, this`home, this`live, this`nodes, node
      ensures Shape() && node in live && node !in avail && nodes == old(nodes) + {node}
      ensures node.View() == Extent(addr, csize, true, true) && home[node] == |old(ledger).chunks|
      ensures ledger == Opened(old(ledger), addr, csize) && Views(avail) == old(Views(avail))
    {
      ghost var v := Views(avail);
      node.addr, node.size, node.zeroed, node.committed := addr, csize, true, true;
      assert Views(avail) == v;
      Adopt(node, addr, csize);
    }

    /** The new chunk enters the ledger. */
    ghost method Adopt(node: ExtentNode, addr: nat, csize: nat)
      requires Shape() && node !in live && node !in spare && csize > 0
      requires node.addr == addr && node.size == csize
      modifies this`ledger, this`home, this`live, this`nodes
      ensures Shape() && live == old(live) + {node} && nodes == old(nodes) + {node}
      ensures home[node] == |old(ledger).chunks| && ledger == Opened(old(ledger), addr, csize)
      ensures Views(avail) == old(Views(avail))
    {
      var v, l, others := Views(avail), ledger, live;
      home := home[node := |ledger.chunks|];
      ledger := Opened(ledger, addr, csize);
      live, nodes := live + {node}, nodes + {node};
      assert Views(avail) == v;
      forall n | n in others ensures home[n] < |l.chunks| && Suffix(ledger, home[n], n.View()) {
        SuffixElsewhere(l, 0, 0, addr, csize, home[n], n.View());
      }
    }

    /** Open the chunk and carve the node's own header off its front if the node is new. */
    method DescribeChunk(spareNode: ExtentNode?, addr: nat, csize: nat, nsize: nat) returns (node: ExtentNode)
      requires Shape() && nsize < csize && (spareNode == null) == (nsize != 0)
      requires spareNode != null ==> spareNode in nodes && spareNode !in live && spareNode !in spare
      modifies this`ledger, this`home, this`live, this`nodes, spareNode
      ensures Shape() && node in live && node !in avail && fresh(nodes - old(nodes)) && node in nodes
      ensures spareNode != null ==> node == spareNode
      ensures spareNode == null ==> fresh(node)
      ensures node.addr == addr + nsize && node.size == csize - nsize && Views(avail) == old(Views(avail))
      ensures ledger == NewChunk(old(ledger), addr, csize, nsize)
    {
      if spareNode != null {
        node := spareNode;
        OpenChunk(node, addr, csize);
      } else {
        ghost var v := Views(avail);
        node := new ExtentNode(addr, csize, true, true);
        assert Views(avail) == v;
        OpenChunk(node, addr, csize);
        ledger := Carved(ledger, home[node], nsize);
        node.addr := addr + nsize;
        node.size := csize - nsize;
        assert Views(avail) == v;
      }
    }

    /** `base_chunk_alloc`: map a chunk with room for `minsize` bytes, and for a node header if no node is spare. */
    method ChunkAlloc(minsize: nat, os: nat -> Option<nat>) returns (node: ExtentNode?)
      requires Valid() && minsize > 0 && nodeSize > 0 && Honest(os, ledger)
      modifies this, nodes
      ensures fresh(nodes - old(nodes))
      ensures node == null ==> ledger == old(ledger) && Views(avail) == old(Views(avail)) && stats == old(stats)
                               && spare == old(spare)
      ensures ValidWith(node)
      ensures node != null ==> node.size >= minsize && node in nodes
                               && old(ledger.blocks) <= ledger.blocks
      ensures Now(node) == Mapping(os, ChunkSize(g, nodeSize, old(spare) != [], minsize), HeaderRoom(g, nodeSize, old(spare) != []),
                                   Layout(old(ledger).chunks), |old(spare)|)
    {
      MappingFits(g, nodeSize, spare != [], minsize, os, Layout(ledger.chunks), |spare|);
      var spareNode := NodeTryAlloc();
      node := MapRequest(spareNode, minsize, os);
    }

    /** The same once a spare node is at hand, or none. */
    method MapRequest(spareNode: ExtentNode?, minsize: nat, os: nat -> Option<nat>) returns (node: ExtentNode?)
      requires Valid() && minsize > 0 && nodeSize > 0 && Honest(os, ledger) && (spareNode == null ==> spare == [])
      requires spareNode != null ==> spareNode in nodes && spareNode !in live && spareNode !in spare
      modifies this, spareNode
      ensures fresh(nodes - old(nodes))
      ensures ValidWith(node)
      ensures node == null ==> ledger == old(ledger) && Views(avail) == old(Views(avail)) && stats == old(stats)
                               && spare == if spareNode == null then old(spare) else [spareNode] + old(spare)
      ensures node != null ==> node in nodes && old(ledger.blocks) <= ledger.blocks
      ensures Now(node) == Mapping(os, ChunkSize(g, nodeSize, spareNode != null, minsize), HeaderRoom(g, nodeSize, spareNode != null),
                                   Layout(old(ledger).chunks), |old(spare)| + if spareNode == null then 0 else 1)
    {
      var nsize := HeaderRoom(g, nodeSize, spareNode != null);
      var csize := ChunkSize(g, nodeSize, spareNode != null, minsize);
      HonestIsMappable(os, ledger, csize);
      node := MapFor(spareNode, csize, nsize, os);
    }

    /** Map the chunk, or put the spare node back if there is no memory. */
    method MapFor(spareNode: ExtentNode?, csize: nat, nsize: nat, os: nat -> Option<nat>) returns (node: ExtentNode?)
      requires Valid() && (spareNode == null ==> spare == [])
      requires ChunkFrom(os, csize).Some? ==> Mappable(ledger, ChunkFrom(os, csize).value, csize)
      requires nsize < csize && (spareNode == null) == (nsize != 0) && nsize % g.line == 0
      requires spareNode != null ==> spareNode in nodes && spareNode !in live && spareNode !in spare
      modifies this, spareNode
      ensures fresh(nodes - old(nodes))
      ensures node == null ==> ledger == old(ledger) && Views(avail) == old(Views(avail)) && stats == old(stats)
                               && spare == if spareNode == null then old(spare) else [spareNode] + old(spare)
      ensures ValidWith(node)
      ensures node != null ==> node in nodes && old(ledger.blocks) <= ledger.blocks
      ensures Now(node) == Mapping(os, csize, nsize, Layout(old(ledger).chunks), |old(spare)| + if spareNode == null then 0 else 1)
    {
      ghost var before := Found(None, Layout(ledger.chunks), |spare| + if spareNode == null then 0 else 1);
      ghost var expected := Mapping(os, csize, nsize, before.layout, before.spares);
      match ChunkFrom(os, csize)
      case None =>
        assert expected == before;
        GiveUp(spareNode);
        node := null;
        assert Now(node) == expected;
      case Some(addr) =>
        assert expected == Found(Some(Block(addr + nsize, csize - nsize)), before.layout + [Block(addr, csize)], |spare|);
        node := MapAt(spareNode, addr, csize, nsize);
    }

    method MapAt(spareNode: ExtentNode?, addr: nat, csize: nat, nsize: nat) returns (node: ExtentNode)
      requires Valid() && Mappable(ledger, addr, csize)
      requires nsize < csize && (spareNode == null) == (nsize != 0) && nsize % g.line == 0
      requires spareNode != null ==> spareNode in nodes && spareNode !in live && spareNode !in spare
      modifies this, spareNode
      ensures ValidWith(node) && node in nodes && fresh(nodes - old(nodes)) && old(ledger.blocks) <= ledger.blocks
      ensures Now(node) == Found(Some(Block(addr + nsize, csize - nsize)), Layout(old(ledger).chunks) + [Block(addr, csize)], |old(spare)|)
    {
      node := MapChunk(spareNode, addr, csize, nsize);
    }

    method GiveUp(spareNode: ExtentNode?)
      requires Valid()
      requires spareNode != null ==> spareNode in nodes && spareNode !in live && spareNode !in spare
      modifies this`spare
      ensures Valid() && spare == if spareNode == null then old(spare) else [spareNode] + old(spare)
      ensures Views(avail) == old(Views(avail)) && |spare| == |old(spare)| + if spareNode == null then 0 else 1
    {
      ghost var v := Views(avail);
      if spareNode != null {
        NodeDalloc(spareNode);
        assert Views(avail) == v;
      }
    }

    method MapChunk(spareNode: ExtentNode?, addr: nat, csize: nat, nsize: nat) returns (node: ExtentNode)
      requires Valid() && Mappable(ledger, addr, csize)
      requires nsize < csize && (spareNode == null) == (nsize != 0) && nsize % g.line == 0
      requires spareNode != null ==> spareNode in nodes && spareNode !in live && spareNode !in spare
      modifies this, spareNode
      ensures ValidWith(node) && node.size == csize - nsize && node in nodes && fresh(nodes - old(nodes))
      ensures old(ledger.blocks) <= ledger.blocks
      ensures node.addr == addr + nsize && spare == old(spare) && Layout(ledger.chunks) == Layout(old(ledger).chunks) + [Block(addr, csize)]
    {
      ghost var v := Views(avail);
      NewChunkFacts(ledger, addr, csize, nsize);
      NewChunkLayout(ledger, addr, csize, nsize);
      stats := MapStats(stats, g, csize, nsize);
      assert Views(avail) == v;
      node := DescribeChunk(spareNode, addr, csize, nsize);
    }

    /**
     `base_alloc`.  A request for no bytes is served only from space at hand: `base_chunk_alloc` asserts
     that it is asked for some.
     */
    method Alloc(size: nat, os: nat -> Option<nat>) returns (ret: Option<nat>)
      requires Valid() && nodeSize > 0 && Honest(os, ledger)
      requires S2u(c.classes, Ceil(size, g.line)) != 0
      requires size == 0 ==> !NoSpace(c, Views(avail), S2u(c.classes, 0))
      modifies this, nodes
      ensures Valid() && fresh(nodes - old(nodes))
      ensures var f := Serving(c, g, nodeSize, old(Views(avail)), Ceil(size, g.line), os, old(Now(null)));
              Now(null) == Spent(f, Ceil(size, g.line)) && ret == StartOf(f)
      ensures ret.None? ==> ledger == old(ledger) && stats == old(stats)
      ensures ret.Some? ==> Appended(old(ledger).blocks, ledger.blocks, Block(ret.value, Ceil(size, g.line)))
    {
      var csize := Ceil(size, g.line);
      ghost var f := Serving(c, g, nodeSize, Views(avail), csize, os, Now(null));
      var k := FindFit(csize, Views(avail));
      ret := AllocAt(csize, os, k, f);
    }

    /** The same once the place in the tree is known. */
    method AllocAt(csize: nat, os: nat -> Option<nat>, k: nat, ghost f: Found) returns (ret: Option<nat>)
      requires Valid() && nodeSize > 0 && Honest(os, ledger) && csize % g.line == 0
      requires k <= |avail| && if k < |avail| then csize <= avail[k].size else csize > 0
      requires f == Finding(g, nodeSize, Views(avail), k, csize, os, Now(null))
      modifies this, nodes
      ensures Valid() && fresh(nodes - old(nodes))
      ensures Now(null) == Spent(f, csize) && ret == StartOf(f)
      ensures ret.None? ==> ledger == old(ledger) && stats == old(stats)
      ensures ret.Some? ==> Appended(old(ledger).blocks, ledger.blocks, Block(ret.value, csize))
    {
      var node := FindSpace(csize, os, k);
      if node == null {
        return None;
      }
      var at := AllocFrom(node, csize);
      ret := Some(at);
    }

    /** A node with enough space: the one at `k`, taken out of the tree, or one newly mapped. */
    method FindSpace(csize: nat, os: nat -> Option<nat>, k: nat) returns (node: ExtentNode?)
      requires Valid() && nodeSize > 0 && Honest(os, ledger)
      requires k <= |avail| && if k < |avail| then csize <= avail[k].size else csize > 0
      modifies this, nodes
      ensures fresh(nodes - old(nodes))
      ensures ValidWith(node)
      ensures node == null ==> ledger == old(ledger) && stats == old(stats)
      ensures node != null ==> csize <= node.size && node in nodes
                               && old(ledger.blocks) <= ledger.blocks
      ensures Now(node) == Finding(g, nodeSize, old(Views(avail)), k, csize, os, old(Now(null)))
    {
      if k < |avail| {
        node := TakeNode(k);
      } else {
        node := ChunkAlloc(csize, os);
      }
    }

    /** The rest of `base_alloc` once a node with enough space is at hand. */
    method AllocFrom(node: ExtentNode, csize: nat) returns (ret: nat)
      requires ValidWith(node) && csize <= node.size && csize % g.line == 0
      modifies this, node
      ensures Valid() && nodes == old(nodes)
      ensures ledger.blocks == old(ledger.blocks) + [Block(ret, csize)]
      ensures ret == old(node.addr) && Now(null) == old(Spent(Now(node), csize))
    {
      ghost var l, i := ledger, home[node];
      ret := CarveFrom(node, csize);
      LayoutAfterUse(l.chunks, i, l.chunks[i].used + csize);
    }

    method CarveFrom(node: ExtentNode, csize: nat) returns (ret: nat)
      requires ValidWith(node) && csize <= node.size && csize % g.line == 0
      modifies this, node
      ensures Valid() && nodes == old(nodes)
      ensures ledger.blocks == old(ledger.blocks) + [Block(ret, csize)]
      ensures ret == old(node.addr) && |spare| == |old(spare)| + if old(node.size) == csize then 1 else 0
      ensures old(home[node]) < |old(ledger).chunks| && ledger == Carved(old(ledger), old(home[node]), csize)
    {
      AllocPlan(node, csize);
      ghost var l, v := Carved(ledger, home[node], csize), Views(avail);
      stats := Charged(stats, g, node.addr, csize);
      assert Views(avail) == v && Books(l, g, stats);
      ret := UseNode(node, csize);
      assert ledger == l;
    }

    /** What the books say of the carved ledger. */
    lemma AllocBooks(node: ExtentNode, csize: nat)
      requires ValidWith(node) && csize <= node.size && csize % g.line == 0
      ensures var l, i := ledger, home[node];
              && i < |l.chunks| && node.addr == l.chunks[i].base + l.chunks[i].used
              && Ceil(node.addr, g.page) <= stats.residentBytes + Ceil(node.addr + csize, g.page)
              && Books(Carved(l, i, csize), g, Charged(stats, g, node.addr, csize))
    {
      assert Suffix(ledger, home[node], node.View());
      CarveFacts(ledger, home[node], csize);
    }

    lemma AllocPlan(node: ExtentNode, csize: nat)
      requires ValidWith(node) && csize <= node.size && csize % g.line == 0
      ensures var l, i := ledger, home[node];
              && i < |l.chunks|
              && Ceil(node.addr, g.page) <= stats.residentBytes + Ceil(node.addr + csize, g.page)
              && Books(Carved(l, i, csize), g, Charged(stats, g, node.addr, csize))
              && Carved(l, i, csize).blocks == l.blocks + [Block(node.addr, csize)]
      ensures csize < node.size ==> forall n :: n in avail ==> n.addr != node.addr + csize
    {
      AllocBooks(node, csize);
      if csize < node.size {
        NewAddressDiffers(node, csize);
      }
    }

    /** What is left of the node starts where no other available space starts. */
    lemma NewAddressDiffers(node: ExtentNode, csize: nat)
      requires Shape() && LedgerOk(ledger) && node in live && node !in avail && csize < node.size
      requires LedgerOk(Carved(ledger, home[node], csize))
      ensures forall n :: n in avail ==> n.addr != node.addr + csize
    {
      var i := home[node];
      var l := Carved(ledger, i, csize);
      forall n | n in avail ensures n.addr != node.addr + csize {
        assert Suffix(ledger, i, node.View()) && Suffix(ledger, home[n], n.View()) && home[n] != i;
        SuffixesDiffer(l, home[n], i, n.View(), Extent(node.addr + csize, node.size - csize, false, false));
      }
    }
  }

  /** The space a node describes. */
  ghost function SpaceOf(node: ExtentNode?): Option<Block>
    reads node
  {
    if node == null then None else Some(Block(node.addr, node.size))
  }

  /** A node sufficient for a size class has at least that many bytes. */
  lemma FitIsBigEnough(c: Config, csize: nat, size: nat)
    requires S2u(c.classes, csize) != 0 && QSize(c, S2u(c.classes, csize)) <= QSize(c, size)
    ensures csize <= size
  {
    var u := S2u(c.classes, csize);
    var i := Size2Index(c.classes, csize);
    assert u == c.classes[i] && (i == 0 || c.classes[0] < c.classes[i]);
    QuantizeIsFloor(c.classes, u, u);
  }
}
