/**
 ckh.c: bucketed cuckoo hashing with two hash functions, random eviction, and rebuilding into a
 larger or smaller table.  The table is proved to be a finite map from keys to data, up to the key
 comparison the caller supplies.

 Random numbers are nondeterministic, and the allocator's answer to each request is a parameter.
 `draws` bounds how many evictions are followed: an operation that needs more is reported as still
 running, with no draw left, and nothing else is claimed for it.
 */
module Ckh {
  import opened Wrappers

  datatype Cell<K, D> = Empty | Item(key: K, data: D)

  // ---------- Tables as sequences of cells ----------

  function Pow2(n: nat): (p: nat)
    ensures p > 0
  {
    if n == 0 then 1 else 2 * Pow2(n - 1)
  }

  /** The items of a table, with multiplicity. */
  ghost function Items<K, D>(t: seq<Cell<K, D>>): multiset<Cell<K, D>> {
    multiset(t)[Empty := 0]
  }

  lemma ItemsUpdate<K, D>(t: seq<Cell<K, D>>, i: nat, c: Cell<K, D>)
    requires i < |t| && c.Item?
    ensures t[i].Empty? ==> Items(t[i := c]) == Items(t) + multiset{c}
    ensures t[i].Item? ==> Items(t[i := c]) + multiset{t[i]} == Items(t) + multiset{c}
  {
    assert multiset(t[i := c]) == multiset(t) - multiset{t[i]} + multiset{c};
    assert t[i] in multiset(t);
  }

  lemma ItemsClear<K, D>(t: seq<Cell<K, D>>, i: nat)
    requires i < |t| && t[i].Item?
    ensures Items(t[i := Empty]) + multiset{t[i]} == Items(t)
  {
    assert multiset(t[i := Empty]) == multiset(t) - multiset{t[i]} + multiset{Empty};
    assert t[i] in multiset(t);
  }

  lemma ItemsConcat<K, D>(s: seq<Cell<K, D>>, t: seq<Cell<K, D>>)
    ensures Items(s + t) == Items(s) + Items(t)
  {
    assert multiset(s + t) == multiset(s) + multiset(t);
  }

  lemma ItemsMember<K, D>(t: seq<Cell<K, D>>, c: Cell<K, D>)
    ensures c in Items(t) <==> c.Item? && c in t
  {
  }

  lemma ItemsPrefix<K, D>(t: seq<Cell<K, D>>, i: nat)
    requires i < |t|
    ensures Items(t[..i + 1]) == Items(t[..i]) + (if t[i].Item? then multiset{t[i]} else multiset{})
  {
    assert t[..i + 1] == t[..i] + [t[i]];
    ItemsConcat(t[..i], [t[i]]);
  }

  /** While items are missing, a scan has not reached the end of the table. */
  lemma ScanContinues<K, D>(t: seq<Cell<K, D>>, i: nat)
    requires i <= |t| && |Items(t[..i])| < |Items(t)|
    ensures i < |t|
  {
    assert t[..|t|] == t;
  }

  /** A scan that has met as many items as there are has met them all. */
  lemma ScanComplete<K, D>(t: seq<Cell<K, D>>, i: nat)
    requires i <= |t| && |Items(t[..i])| >= |Items(t)|
    ensures Items(t[..i]) == Items(t)
  {
    assert t == t[..i] + t[i..];
    ItemsConcat(t[..i], t[i..]);
    assert |Items(t)| == |Items(t[..i])| + |Items(t[i..])|;
  }

  lemma ItemsOfEmpty<K, D>(t: seq<Cell<K, D>>)
    requires forall i :: 0 <= i < |t| ==> t[i].Empty?
    ensures Items(t) == multiset{}
  {
    forall x ensures x !in Items(t) {
      ItemsMember(t, x);
    }
  }

  lemma ItemsSkip<K, D>(t: seq<Cell<K, D>>, i: nat, j: nat)
    requires i <= j <= |t| && forall k :: i <= k < j ==> t[k].Empty?
    ensures Items(t[..j]) == Items(t[..i])
  {
    assert t[..j] == t[..i] + t[i..j];
    ItemsConcat(t[..i], t[i..j]);
    ItemsOfEmpty(t[i..j]);
  }

  /** Cell `i` lies in bucket `b`. */
  predicate InBucket(cells: nat, i: nat, b: nat) {
    b * cells <= i < b * cells + cells
  }

  lemma CellInTable(cells: nat, b: nat, n: nat)
    requires b < n
    ensures b * cells + cells <= n * cells
  {
    assert (b + 1) * cells <= n * cells;
  }

  /** Hash functions and key comparison. */
  datatype Hashing<!K> = Hashing(hash0: K -> nat, hash1: K -> nat, same: (K, K) -> bool)

  /** The comparison is an equivalence, and equal keys hash alike. */
  ghost predicate Lawful<K(!new)>(h: Hashing<K>) {
    && (forall k :: h.same(k, k))
    && (forall j, k :: h.same(j, k) ==> h.same(k, j) && h.hash0(j) == h.hash0(k) && h.hash1(j) == h.hash1(k))
    && (forall j, k, l :: h.same(j, k) && h.same(k, l) ==> h.same(j, l))
  }

  function Bucket0<K>(h: Hashing<K>, lg: nat, k: K): nat {
    h.hash0(k) % Pow2(lg)
  }

  function Bucket1<K>(h: Hashing<K>, lg: nat, k: K): nat {
    h.hash1(k) % Pow2(lg)
  }

  /** `b` is one of the two buckets of the key. */
  predicate HomeBucket<K>(h: Hashing<K>, lg: nat, k: K, b: nat) {
    b == Bucket0(h, lg, k) || b == Bucket1(h, lg, k)
  }

  /** Every item sits in one of its two buckets. */
  ghost predicate Homed<K, D>(h: Hashing<K>, cells: nat, lg: nat, t: seq<Cell<K, D>>) {
    forall i :: 0 <= i < |t| && t[i].Item? ==>
      InBucket(cells, i, Bucket0(h, lg, t[i].key)) || InBucket(cells, i, Bucket1(h, lg, t[i].key))
  }

  ghost predicate Table<K, D>(h: Hashing<K>, cells: nat, lg: nat, t: seq<Cell<K, D>>) {
    && cells > 0 && |t| == Pow2(lg) * cells
    && Homed(h, cells, lg, t)
  }

  /** No two items have the same key. */
  ghost predicate DistinctKeys<K, D>(h: Hashing<K>, m: multiset<Cell<K, D>>) {
    && (forall x :: x in m ==> x.Item? && m[x] == 1)
    && (forall x, y :: x in m && y in m && x.Item? && y.Item? && h.same(x.key, y.key) ==> x == y)
  }

  ghost predicate BucketFull<K, D>(cells: nat, t: seq<Cell<K, D>>, b: nat) {
    forall i :: 0 <= i < |t| && InBucket(cells, i, b) ==> t[i].Item?
  }

  // ---------- Why an insertion fails ----------

  /** The two buckets of the key have no empty cell. */
  ghost predicate BothFull<K, D>(h: Hashing<K>, cells: nat, lg: nat, t: seq<Cell<K, D>>, key: K) {
    BucketFull(cells, t, h.hash0(key) % Pow2(lg)) && BucketFull(cells, t, h.hash1(key) % Pow2(lg))
  }

  /** Some of the items, in a table, leave no room for another of them. */
  ghost predicate Blocks<K, D>(h: Hashing<K>, cells: nat, lg: nat, items: multiset<Cell<K, D>>, t: seq<Cell<K, D>>, x: Cell<K, D>) {
    && Table(h, cells, lg, t) && x.Item? && Items(t) + multiset{x} <= items
    && BothFull(h, cells, lg, t, x.key)
  }

  /** In a table of 2^lg buckets the items can be in each other's way. */
  ghost predicate Crowded<K(!new), D(!new)>(h: Hashing<K>, cells: nat, lg: nat, items: multiset<Cell<K, D>>) {
    exists t, x :: Blocks(h, cells, lg, items, t, x)
  }

  ghost predicate CrowdedFrom<K(!new), D(!new)>(h: Hashing<K>, cells: nat, lo: nat, hi: nat, items: multiset<Cell<K, D>>) {
    forall lg: nat :: lo <= lg < hi ==> Crowded(h, cells, lg, items)
  }

  lemma CrowdedMore<K(!new), D(!new)>(h: Hashing<K>, cells: nat, lo: nat, hi: nat, items: multiset<Cell<K, D>>, all: multiset<Cell<K, D>>)
    requires CrowdedFrom(h, cells, lo, hi, items) && items <= all
    ensures CrowdedFrom(h, cells, lo, hi, all)
  {
    forall lg: nat | lo <= lg < hi ensures Crowded(h, cells, lg, all) {
      assert Crowded(h, cells, lg, items);
      var t, x :| Blocks(h, cells, lg, items, t, x);
      assert Blocks(h, cells, lg, all, t, x);
    }
  }

  lemma CrowdedJoin<K(!new), D(!new)>(h: Hashing<K>, cells: nat, lo: nat, mid: nat, hi: nat, items: multiset<Cell<K, D>>)
    requires CrowdedFrom(h, cells, lo, mid, items) && CrowdedFrom(h, cells, mid, hi, items)
    ensures CrowdedFrom(h, cells, lo, hi, items)
  {
    forall lg: nat | lo <= lg < hi ensures Crowded(h, cells, lg, items) {
      assert lg < mid || mid <= lg;
    }
  }

  lemma {:induction false} AllItems<K, D>(t: seq<Cell<K, D>>)
    requires forall i :: 0 <= i < |t| ==> t[i].Item?
    ensures |Items(t)| == |t|
  {
    assert Empty !in multiset(t);
    assert Items(t) == multiset(t);
  }

  /** No more items than a bucket has cells are never in each other's way, whatever they hash to. */
  lemma FewNeverCrowded<K(!new), D(!new)>(h: Hashing<K>, cells: nat, lg: nat, items: multiset<Cell<K, D>>)
    requires |items| <= cells
    ensures !Crowded(h, cells, lg, items)
  {
    forall t, x | Blocks(h, cells, lg, items, t, x) ensures false {
      FullHolds(cells, lg, t, Bucket0(h, lg, x.key));
      assert |Items(t) + multiset{x}| == |Items(t)| + 1;
      Smaller(Items(t) + multiset{x}, items);
    }
  }

  lemma Smaller<T>(a: multiset<T>, b: multiset<T>)
    requires a <= b
    ensures |a| <= |b|
  {
    assert b == a + (b - a);
  }

  lemma FullHolds<K, D>(cells: nat, lg: nat, t: seq<Cell<K, D>>, b: nat)
    requires |t| == Pow2(lg) * cells && b < Pow2(lg) && BucketFull(cells, t, b)
    ensures |Items(t)| >= cells
  {
    CellInTable(cells, b, Pow2(lg));
    var lo, hi := b * cells, b * cells + cells;
    var front, bucket, back := t[..lo], t[lo..hi], t[hi..];
    assert t == front + bucket + back;
    forall i | 0 <= i < |bucket| ensures bucket[i].Item? {
      assert bucket[i] == t[lo + i];
    }
    AllItems(bucket);
    ItemsConcat(front + bucket, back);
    ItemsConcat(front, bucket);
  }

  /** The cells of a bucket, the largest table (log2 of its buckets), and which requests the allocator refuses. */
  datatype Limits = Limits(cells: nat, maxLg: nat, refuses: nat -> bool)

  predicate Refused(refuses: nat -> bool, n: nat) {
    refuses(n)
  }

  ghost predicate RanOut(refuses: nat -> bool, lo: nat, hi: nat) {
    exists n: nat :: lo <= n < hi && Refused(refuses, n)
  }

  /** Memory ran out among the given requests, or the items can be in each other's way at every size from 2^lo on. */
  ghost predicate NoRoom<K(!new), D(!new)>(h: Hashing<K>, limits: Limits, lo: nat, asked: nat, asked': nat, items: multiset<Cell<K, D>>) {
    asked <= asked' && (RanOut(limits.refuses, asked, asked') || CrowdedFrom(h, limits.cells, lo, limits.maxLg + 1, items))
  }

  /** Without a refusal, tables of 2^lo up to fewer than 2^hi buckets were passed over because they could be too crowded. */
  ghost predicate GrewFor<K(!new), D(!new)>(h: Hashing<K>, limits: Limits, lo: nat, hi: nat, asked: nat, asked': nat, items: multiset<Cell<K, D>>) {
    asked <= asked' && !RanOut(limits.refuses, asked, asked') && CrowdedFrom(h, limits.cells, lo, hi, items)
  }

  lemma GrewOn<K(!new), D(!new)>(h: Hashing<K>, limits: Limits, lo: nat, mid: nat, asked: nat, asked': nat, asked'': nat, items: multiset<Cell<K, D>>)
    requires GrewFor(h, limits, lo, mid, asked, asked', items)
    ensures NoRoom(h, limits, mid, asked', asked'', items) ==> NoRoom(h, limits, lo, asked, asked'', items)
    ensures forall hi: nat :: GrewFor(h, limits, mid, hi, asked', asked'', items) ==> GrewFor(h, limits, lo, hi, asked, asked'', items)
  {
    if NoRoom(h, limits, mid, asked', asked'', items) && !RanOut(limits.refuses, asked', asked'') {
      CrowdedJoin(h, limits.cells, lo, mid, limits.maxLg + 1, items);
    }
    forall hi: nat | GrewFor(h, limits, mid, hi, asked', asked'', items) ensures GrewFor(h, limits, lo, hi, asked, asked'', items) {
      CrowdedJoin(h, limits.cells, lo, mid, hi, items);
    }
  }

  /** An insertion that found both buckets full, in a table of the other items. */
  lemma FullIsCrowded<K(!new), D(!new)>(h: Hashing<K>, cells: nat, lg: nat, items: multiset<Cell<K, D>>, t: seq<Cell<K, D>>, x: Cell<K, D>)
    requires Blocks(h, cells, lg, items, t, x)
    ensures CrowdedFrom(h, cells, lg, lg + 1, items)
  {
  }

  /** One more size was tried. */
  lemma SizeTried<K(!new), D(!new)>(h: Hashing<K>, limits: Limits, lo: nat, lg: nat, asked: nat, n: nat, items: multiset<Cell<K, D>>)
    requires GrewFor(h, limits, lo, lg, asked, n, items)
    ensures Refused(limits.refuses, n) ==> NoRoom(h, limits, lo, asked, n + 1, items)
    ensures !Refused(limits.refuses, n) ==> GrewFor(h, limits, lo, lg, asked, n + 1, items)
    ensures !Refused(limits.refuses, n) && Crowded(h, limits.cells, lg, items) ==> GrewFor(h, limits, lo, lg + 1, asked, n + 1, items)
  {
    if !Refused(limits.refuses, n) && Crowded(h, limits.cells, lg, items) {
      forall l: nat | lo <= l < lg + 1 ensures Crowded(h, limits.cells, l, items) {
        assert l < lg || l == lg;
      }
    }
  }

  /** A round that grows the table: this size may be too crowded, and so may those passed over. */
  lemma RoundFails<K(!new), D(!new)>(h: Hashing<K>, limits: Limits, lg: nat, hi: nat, asked: nat, asked': nat,
                                     items: multiset<Cell<K, D>>, all: multiset<Cell<K, D>>, t: seq<Cell<K, D>>, x: Cell<K, D>)
    requires Blocks(h, limits.cells, lg, all, t, x) && items <= all
    ensures NoRoom(h, limits, lg + 1, asked, asked', items) ==> NoRoom(h, limits, lg, asked, asked', all)
    ensures GrewFor(h, limits, lg + 1, hi, asked, asked', items) ==> GrewFor(h, limits, lg, hi, asked, asked', all)
  {
    FullIsCrowded(h, limits.cells, lg, all, t, x);
    if NoRoom(h, limits, lg + 1, asked, asked', items) && !RanOut(limits.refuses, asked, asked') {
      CrowdedMore(h, limits.cells, lg + 1, limits.maxLg + 1, items, all);
      CrowdedJoin(h, limits.cells, lg, lg + 1, limits.maxLg + 1, all);
    }
    if GrewFor(h, limits, lg + 1, hi, asked, asked', items) {
      CrowdedMore(h, limits.cells, lg + 1, hi, items, all);
      CrowdedJoin(h, limits.cells, lg, lg + 1, hi, all);
    }
  }

  /** The same while a table is rebuilt. */
  lemma FoundCrowded<K(!new), D(!new)>(h: Hashing<K>, cells: nat, lg: nat, from: seq<Cell<K, D>>, i: nat, t: seq<Cell<K, D>>)
    requires Table(h, cells, lg, t) && i < |from| && from[i].Item? && Items(t) == Items(from[..i])
    requires BothFull(h, cells, lg, t, from[i].key)
    ensures Crowded(h, cells, lg, Items(from))
  {
    ItemsPrefix(from, i);
    ItemsConcat(from[..i + 1], from[i + 1..]);
    assert from == from[..i + 1] + from[i + 1..];
    assert Blocks(h, cells, lg, Items(from), t, from[i]);
  }

  /** One request later the table has half the buckets, or as many as before for a reason. */
  ghost predicate Halves<K(!new), D(!new)>(h: Hashing<K>, limits: Limits, lg: nat, lg': nat, asked: nat, asked': nat, items: multiset<Cell<K, D>>)
    requires lg > 0
  {
    asked' == asked + 1 && (lg' == lg - 1 || (lg' == lg && (Refused(limits.refuses, asked) || Crowded(h, limits.cells, lg - 1, items))))
  }

  /** Fewer than a quarter of the cells are in use. */
  predicate Sparse(count: nat, cells: nat, lg: nat) {
    4 * count < Pow2(lg) * cells
  }

  /**
   The table is halved exactly if fewer than a quarter of its cells are in use and it is above its smallest
   size, unless memory is refused or the items may be too crowded in the smaller table.
   */
  ghost predicate Shrinks<K(!new), D(!new)>(h: Hashing<K>, limits: Limits, lgMin: nat, lg: nat, lg': nat, asked: nat, asked': nat,
                                            count: nat, items: multiset<Cell<K, D>>)
  {
    if Sparse(count, limits.cells, lg) && lg > lgMin then
      Halves(h, limits, lg, lg', asked, asked', items)
    else
      asked' == asked && lg' == lg
  }

  // ---------- Eviction paths ----------

  /** An item taken out of bucket `at`, and its other bucket. */
  datatype Eviction<K, D> = Eviction(item: Cell<K, D>, at: nat, other: nat)

  /** The step takes an item out of one of its two buckets and goes on to the other. */
  ghost predicate Moves<K, D>(h: Hashing<K>, lg: nat, e: Eviction<K, D>) {
    e.item.Item? && {e.at, e.other} == {h.hash0(e.item.key) % Pow2(lg), h.hash1(e.item.key) % Pow2(lg)}
  }

  /** Eviction `i` is from the bucket that the one before leads to. */
  ghost predicate Follows<K, D>(start: nat, es: seq<Eviction<K, D>>, i: nat)
    requires i < |es|
  {
    es[i].at == if i == 0 then start else es[i - 1].other
  }

  /** Each eviction is from the bucket that the one before leads to, and only the last may lead back to the first bucket. */
  ghost predicate Path<K, D>(h: Hashing<K>, lg: nat, start: nat, es: seq<Eviction<K, D>>) {
    && (forall i :: 0 <= i < |es| ==> Moves(h, lg, es[i]))
    && (forall i :: 0 <= i < |es| ==> Follows(start, es, i))
    && (forall i :: 0 <= i < |es| - 1 ==> es[i].other != start)
  }

  lemma PathExtends<K, D>(h: Hashing<K>, lg: nat, start: nat, es: seq<Eviction<K, D>>, e: Eviction<K, D>)
    requires Path(h, lg, start, es) && Moves(h, lg, e)
    requires e.at == if es == [] then start else es[|es| - 1].other
    requires es != [] ==> es[|es| - 1].other != start
    ensures Path(h, lg, start, es + [e])
  {
    var fs := es + [e];
    assert forall i :: 0 <= i < |es| ==> fs[i] == es[i];
    assert fs[|es|] == e;
    forall i | 0 <= i < |fs| ensures Moves(h, lg, fs[i]) {
      assert i < |es| ==> fs[i] == es[i] && Moves(h, lg, es[i]);
    }
    forall i | 0 <= i < |fs| ensures Follows(start, fs, i) {
      assert i < |es| ==> Follows(start, es, i);
    }
    forall i | 0 <= i < |fs| - 1 ensures fs[i].other != start {
      assert fs[i] == es[i];
    }
  }

  /** Storing an item in one of its buckets keeps the table well formed. */
  lemma StoreHomed<K, D>(h: Hashing<K>, cells: nat, lg: nat, t: seq<Cell<K, D>>, i: nat, b: nat, c: Cell<K, D>)
    requires Table(h, cells, lg, t) && i < |t| && c.Item? && InBucket(cells, i, b) && HomeBucket(h, lg, c.key, b)
    ensures Table(h, cells, lg, t[i := c])
  {
  }

  /** An item found by its cell is in one of its two buckets. */
  lemma CellHome<K, D>(h: Hashing<K>, cells: nat, lg: nat, t: seq<Cell<K, D>>, i: nat, b: nat)
    requires Table(h, cells, lg, t) && i < |t| && t[i].Item? && InBucket(cells, i, b)
    ensures HomeBucket(h, lg, t[i].key, b)
  {
    var b0, b1 := Bucket0(h, lg, t[i].key), Bucket1(h, lg, t[i].key);
    if InBucket(cells, i, b0) {
      SameBucket(cells, i, b, b0);
    } else {
      SameBucket(cells, i, b, b1);
    }
  }

  lemma SameBucket(cells: nat, i: nat, b: nat, b': nat)
    requires InBucket(cells, i, b) && InBucket(cells, i, b')
    ensures b == b'
  {
    assert b < b' ==> (b + 1) * cells <= b' * cells;
    assert b' < b ==> (b' + 1) * cells <= b * cells;
  }

  /** `(i + offset) & (cells - 1)` for two numbers below `cells`. */
  function Cycle(cells: nat, i: nat, offset: nat): (r: nat)
    requires i < cells && offset < cells
    ensures r < cells
  {
    if i + offset < cells then i + offset else i + offset - cells
  }

  /** How an insertion attempt ended; `item` is the item still in hand. */
  datatype Outcome<K, D> = Inserted | Cyclic(item: Cell<K, D>) | Running(item: Cell<K, D>)

  datatype Status = Ok | Failed | Unfinished

  class Ckh<K(!new), D(!new)> {
    const hashing: Hashing<K>
    const cells: nat              // cells per bucket
    const maxLg: nat              // beyond this many buckets (log2) no memory is asked for
    const refuses: nat -> bool    // the allocator's answers, request by request
    var asked: nat                // how many requests there have been
    var tab: array<Cell<K, D>>
    var lgCur: nat
    const lgMin: nat
    var count: nat
    var draws: nat                // how many more evictions are followed

    ghost function Bounds(): Limits {
      Limits(cells, maxLg, refuses)
    }

    ghost predicate WellPlaced()
      reads this, tab
    {
      Lawful(hashing) && Table(hashing, cells, lgCur, tab[..])
    }

    ghost predicate Valid()
      reads this, tab
    {
      && WellPlaced()
      && count == |Items(tab[..])|
      && DistinctKeys(hashing, Items(tab[..]))
      && lgCur <= maxLg
    }

    /** `ckh_new`, for hash functions and a comparison that agree; the table starts with room for 3/4 of its cells. */
    constructor (hashing: Hashing<K>, cells: nat, maxLg: nat, lgMin: nat, draws: nat, refuses: nat -> bool)
      requires Lawful(hashing) && cells > 0 && lgMin <= maxLg
      ensures Valid() && Items(tab[..]) == multiset{} && fresh(tab)
      ensures this.hashing == hashing && this.cells == cells && lgCur == lgMin == this.lgMin
    {
      this.hashing, this.cells, this.maxLg, this.lgMin, this.draws := hashing, cells, maxLg, lgMin, draws;
      this.refuses, asked := refuses, 0;
      lgCur, count := lgMin, 0;
      tab := new Cell<K, D>[Pow2(lgMin) * cells](_ => Empty);
      new;
      ItemsOfEmpty(tab[..]);
    }

    // ---------- Searching ----------

    /** `ckh_bucket_search`. */
    method BucketSearch(b: nat, key: K) returns (r: Option<nat>)
      requires b * cells + cells <= tab.Length
      ensures r.Some? ==> r.value < tab.Length && tab[r.value].Item? && hashing.same(key, tab[r.value].key)
      ensures r.None? ==> forall i :: 0 <= i < tab.Length && InBucket(cells, i, b) && tab[i].Item? ==>
                            !hashing.same(key, tab[i].key)
    {
      for i := 0 to cells
        invariant forall j :: b * cells <= j < b * cells + i && tab[j].Item? ==> !hashing.same(key, tab[j].key)
      {
        var cell := tab[b * cells + i];
        if cell.Item? && hashing.same(key, cell.key) {
          return Some(b * cells + i);
        }
      }
      r := None;
    }

    /** `ckh_isearch`: looking into two buckets is looking into the whole table. */
    method ISearch(key: K) returns (r: Option<nat>)
      requires WellPlaced()
      ensures r.Some? ==> r.value < tab.Length && tab[r.value].Item? && hashing.same(key, tab[r.value].key)
      ensures r.None? ==> forall i :: 0 <= i < tab.Length && tab[i].Item? ==> !hashing.same(key, tab[i].key)
    {
      var b := Bucket0(hashing, lgCur, key);
      CellInTable(cells, b, Pow2(lgCur));
      r := BucketSearch(b, key);
      if r.Some? {
        return;
      }
      b := Bucket1(hashing, lgCur, key);
      CellInTable(cells, b, Pow2(lgCur));
      r := BucketSearch(b, key);
      assert forall i :: 0 <= i < tab.Length ==> tab[..][i] == tab[i];
    }

    /** `ckh_search`: found exactly when some item has the key, and then it is that item. */
    method Search(key: K) returns (r: Option<Cell<K, D>>)
      requires Valid()
      ensures r.Some? <==> exists x :: x in Items(tab[..]) && x.Item? && hashing.same(key, x.key)
      ensures r.Some? ==> r.value in Items(tab[..]) && r.value.Item? && hashing.same(key, r.value.key)
      ensures r.Some? ==> forall x :: x in Items(tab[..]) && x.Item? && hashing.same(key, x.key) ==> x == r.value
    {
      var i := ISearch(key);
      if i.Some? {
        r := Some(tab[i.value]);
        ItemsMember(tab[..], r.value);
        assert tab[..][i.value] == r.value;
      } else {
        r := None;
        forall x | x in Items(tab[..]) && x.Item? ensures !hashing.same(key, x.key) {
          ItemsMember(tab[..], x);
          var j :| 0 <= j < |tab[..]| && tab[..][j] == x;
        }
      }
    }

    /** `ckh_iter`: the next item at or after cell `start`, and where to go on. */
    method Iter(start: nat) returns (r: Option<Cell<K, D>>, next: nat)
      requires start <= tab.Length
      ensures r.Some? ==> start < next <= tab.Length && r.value == tab[next - 1] && r.value.Item?
                          && forall i :: start <= i < next - 1 ==> tab[i].Empty?
      ensures r.None? ==> forall i :: start <= i < tab.Length ==> tab[i].Empty?
    {
      next := start;
      while next < tab.Length
        invariant start <= next <= tab.Length
        invariant forall i :: start <= i < next ==> tab[i].Empty?
      {
        if tab[next].Item? {
          return Some(tab[next]), next + 1;
        }
        next := next + 1;
      }
      r := None;
    }

    /** Iterating from 0 until `ckh_iter` reports the end yields every item exactly once. */
    method Iterate() returns (items: seq<Cell<K, D>>)
      ensures multiset(items) == Items(tab[..])
    {
      items := [];
      var at, more := 0, true;
      while more
        invariant at <= tab.Length
        invariant multiset(items) == Items(tab[..][..at])
        invariant !more ==> multiset(items) == Items(tab[..])
        decreases tab.Length - at, more
      {
        var r, next := Iter(at);
        ghost var t := tab[..];
        match r
        case Some(item) =>
          ItemsSkip(t, at, next - 1);
          ItemsPrefix(t, next - 1);
          assert multiset(items + [item]) == Items(t[..next]);
          items := items + [item];
          at := next;
        case None =>
          ItemsSkip(t, at, |t|);
          assert t[..|t|] == t;
          more := false;
      }
    }

    // ---------- Inserting ----------

    /** `ckh_try_bucket_insert`: start at a random cell and cycle through the bucket. */
    method TryBucketInsert(b: nat, item: Cell<K, D>) returns (full: bool)
      requires WellPlaced() && item.Item? && HomeBucket(hashing, lgCur, item.key, b) && b < Pow2(lgCur)
      modifies tab, this`count
      ensures WellPlaced()
      ensures full ==> tab[..] == old(tab[..]) && count == old(count) && BucketFull(cells, tab[..], b)
      ensures !full ==> Items(tab[..]) == old(Items(tab[..])) + multiset{item} && count == old(count) + 1
    {
      CellInTable(cells, b, Pow2(lgCur));
      var c := FreeCell(b * cells);
      if c.None? {
        return true;
      }
      Store(c.value, b, item);
      full := false;
    }

    /** An empty cell among those from `first` on, looked for from a random one round. */
    method FreeCell(first: nat) returns (c: Option<nat>)
      requires cells > 0 && first + cells <= tab.Length
      ensures c.Some? ==> first <= c.value < first + cells && tab[c.value].Empty?
      ensures c.None? ==> forall k :: first <= k < first + cells ==> tab[k].Item?
    {
      var offset: nat :| offset < cells;
      for i := 0 to cells
        invariant forall j :: 0 <= j < i ==> tab[first + Cycle(cells, j, offset)].Item?
      {
        var at := first + Cycle(cells, i, offset);
        if tab[at].Empty? {
          return Some(at);
        }
      }
      c := None;
      forall k | first <= k < first + cells ensures tab[k].Item? {
        var r := k - first;
        var j := if r >= offset then r - offset else r + cells - offset;
        assert Cycle(cells, j, offset) == r;
      }
    }

    /** Put an item into an empty cell of one of its buckets. */
    method Store(c: nat, b: nat, item: Cell<K, D>)
      requires WellPlaced() && item.Item? && HomeBucket(hashing, lgCur, item.key, b)
      requires c < tab.Length && InBucket(cells, c, b) && tab[c].Empty?
      modifies tab, this`count
      ensures WellPlaced() && count == old(count) + 1
      ensures Items(tab[..]) == old(Items(tab[..])) + multiset{item}
    {
      ghost var t := tab[..];
      ItemsUpdate(t, c, item);
      StoreHomed(hashing, cells, lgCur, t, c, b, item);
      tab[c] := item;
      assert tab[..] == t[c := item];
      count := count + 1;
    }

    /** Swap the item in hand with a random item of a full bucket; the chosen cell is never empty. */
    method Evict(b: nat, hand: Cell<K, D>) returns (evicted: Cell<K, D>)
      requires WellPlaced() && hand.Item? && HomeBucket(hashing, lgCur, hand.key, b)
      requires b < Pow2(lgCur) && BucketFull(cells, tab[..], b)
      modifies tab
      ensures WellPlaced() && evicted.Item? && HomeBucket(hashing, lgCur, evicted.key, b)
      ensures Items(tab[..]) + multiset{evicted} == old(Items(tab[..])) + multiset{hand}
    {
      CellInTable(cells, b, Pow2(lgCur));
      var first := b * cells;
      var c: nat :| first <= c < first + cells;
      evicted := Swap(c, b, hand);
    }

    method Swap(c: nat, b: nat, hand: Cell<K, D>) returns (evicted: Cell<K, D>)
      requires WellPlaced() && hand.Item? && HomeBucket(hashing, lgCur, hand.key, b)
      requires c < tab.Length && InBucket(cells, c, b) && tab[c].Item?
      modifies tab
      ensures WellPlaced() && evicted.Item? && HomeBucket(hashing, lgCur, evicted.key, b)
      ensures Items(tab[..]) + multiset{evicted} == old(Items(tab[..])) + multiset{hand}
    {
      ghost var t := tab[..];
      CellHome(hashing, cells, lgCur, t, c, b);
      ItemsUpdate(t, c, hand);
      StoreHomed(hashing, cells, lgCur, t, c, b, hand);
      evicted := tab[c];
      tab[c] := hand;
      assert tab[..] == t[c := hand];
    }

    /**
     `ckh_evict_reloc_insert`: swap the item in hand with a random item of the full bucket, and move
     on to the evicted item's other bucket.
     */
    method EvictRelocInsert(argBucket: nat, arg: Cell<K, D>) returns (o: Outcome<K, D>, ghost path: seq<Eviction<K, D>>)
      requires WellPlaced() && arg.Item? && HomeBucket(hashing, lgCur, arg.key, argBucket)
      requires argBucket < Pow2(lgCur) && BucketFull(cells, tab[..], argBucket)
      modifies tab, this`count, this`draws
      ensures WellPlaced()
      ensures o.Inserted? ==> Items(tab[..]) == old(Items(tab[..])) + multiset{arg} && count == old(count) + 1
      ensures !o.Inserted? ==> o.item.Item? && count == old(count)
                               && Items(tab[..]) + multiset{o.item} == old(Items(tab[..])) + multiset{arg}
      ensures Path(hashing, lgCur, argBucket, path) && draws + |path| == old(draws)
      ensures Ends(argBucket, path, o) && (o.Running? ==> draws == 0)
    {
      var b: nat := argBucket;
      var hand := arg;
      path := [];
      while draws > 0
        invariant WellPlaced() && hand.Item? && b < Pow2(lgCur) && count == old(count)
        invariant HomeBucket(hashing, lgCur, hand.key, b)
        invariant BucketFull(cells, tab[..], b)
        invariant Items(tab[..]) + multiset{hand} == old(Items(tab[..])) + multiset{arg}
        invariant Path(hashing, lgCur, argBucket, path) && draws + |path| == old(draws)
        invariant b == (if path == [] then argBucket else path[|path| - 1].other) && (path != [] ==> b != argBucket)
        decreases draws
      {
        draws := draws - 1;
        hand := Evict(b, hand);
        var next := Bucket1(hashing, lgCur, hand.key);
        if next == b {
          next := Bucket0(hashing, lgCur, hand.key);
        }
        PathExtends(hashing, lgCur, argBucket, path, Eviction(hand, b, next));
        path := path + [Eviction(hand, b, next)];
        if next == argBucket {
          return Cyclic(hand), path;
        }
        b := next;
        var full := TryBucketInsert(b, hand);
        if !full {
          return Inserted, path;
        }
      }
      o := Running(hand);
    }

    /** The attempt ends in a cycle exactly when the path leads back, with the last item taken out. */
    ghost predicate Ends(argBucket: nat, path: seq<Eviction<K, D>>, o: Outcome<K, D>) {
      match o
      case Cyclic(item) => path != [] && path[|path| - 1].other == argBucket && path[|path| - 1].item == item
      case Inserted => path != [] && path[|path| - 1].other != argBucket
      case Running(_) => path != [] ==> path[|path| - 1].other != argBucket
    }

    /** `ckh_try_insert`: on failure the item in hand may be another one than the item given. */
    method TryInsert(item: Cell<K, D>) returns (o: Outcome<K, D>)
      requires WellPlaced() && item.Item?
      modifies tab, this`count, this`draws
      ensures WellPlaced()
      ensures o.Inserted? ==> Items(tab[..]) == old(Items(tab[..])) + multiset{item} && count == old(count) + 1
      ensures !o.Inserted? ==> o.item.Item? && count == old(count)
                               && Items(tab[..]) + multiset{o.item} == old(Items(tab[..])) + multiset{item}
      ensures !o.Inserted? ==> BothFull(hashing, cells, lgCur, old(tab[..]), item.key)
      ensures BothFull(hashing, cells, lgCur, old(tab[..]), item.key) || draws == old(draws)
      ensures (o.Cyclic? ==> draws < old(draws)) && (o.Running? ==> draws == 0)
    {
      var full := TryBucketInsert(Bucket0(hashing, lgCur, item.key), item);
      if !full {
        return Inserted;
      }
      var b := Bucket1(hashing, lgCur, item.key);
      full := TryBucketInsert(b, item);
      if !full {
        return Inserted;
      }
      ghost var path;
      o, path := EvictRelocInsert(b, item);
    }

    // ---------- Rebuilding ----------

    /**
     `ckh_rebuild`: insert all items of the old table `from` into the (empty) new table.  The scan
     stops after `count` items, which it meets before the end of the old table.
     */
    method Rebuild(from: array<Cell<K, D>>) returns (status: Status)
      requires WellPlaced() && from != tab && Items(tab[..]) == multiset{} && count == |Items(from[..])|
      modifies tab, this`count, this`draws
      ensures WellPlaced() && from[..] == old(from[..])
      ensures status.Ok? ==> Items(tab[..]) == Items(from[..])
      ensures !status.Unfinished? ==> count == old(count)
      ensures status.Failed? ==> Crowded(hashing, cells, lgCur, Items(from[..]))
      ensures status.Unfinished? ==> draws == 0
    {
      var total := count;
      count := 0;
      var i, nins := 0, 0;
      while nins < total
        invariant WellPlaced() && from[..] == old(from[..]) && i <= from.Length
        invariant Items(tab[..]) == Items(from[..][..i]) && nins == count == |Items(from[..][..i])| <= total
        decreases from.Length - i
      {
        ScanContinues(from[..], i);
        ItemsPrefix(from[..], i);
        if from[i].Item? {
          ghost var t := tab[..];
          var o := TryInsert(from[i]);
          match o
          case Cyclic(_) =>
            FoundCrowded(hashing, cells, lgCur, from[..], i, t);
            count := total;
            return Failed;
          case Running(_) =>
            return Unfinished;
          case Inserted =>
            nins := nins + 1;
        }
        i := i + 1;
      }
      ScanComplete(from[..], i);
      status := Ok;
    }

    /** Swap in a new table of 2^lg buckets and rebuild; back out if the rebuild fails. */
    method RebuildInto(lg: nat) returns (status: Status)
      requires Valid() && lg <= maxLg
      modifies this, tab
      ensures tab == old(tab) || fresh(tab)
      ensures status.Ok? ==> Valid() && lgCur == lg && Items(tab[..]) == old(Items(tab[..]))
      ensures status.Failed? ==> Valid() && lgCur == old(lgCur) && tab == old(tab) && tab[..] == old(tab[..])
      ensures status.Failed? ==> Crowded(hashing, cells, lg, old(Items(tab[..])))
      ensures asked == old(asked) && (status.Unfinished? ==> draws == 0)
    {
      var prev, lgPrev := tab, lgCur;
      tab := new Cell<K, D>[Pow2(lg) * cells](_ => Empty);
      lgCur := lg;
      ItemsOfEmpty(tab[..]);
      status := Rebuild(prev);
      if status.Failed? {
        tab, lgCur := prev, lgPrev;
      }
    }

    /**
     `ckh_grow`: double until the items fit or memory runs out.  A size is passed over only if the items
     can be in each other's way in it, so growing fails only if a request is refused or no size is left.
     */
    method Grow() returns (status: Status)
      requires Valid()
      modifies this, tab
      ensures tab == old(tab) || fresh(tab)
      ensures status.Ok? ==> Valid() && lgCur > old(lgCur) && Items(tab[..]) == old(Items(tab[..]))
      ensures status.Failed? ==> Valid() && lgCur == old(lgCur) && tab == old(tab) && tab[..] == old(tab[..])
      ensures status.Ok? ==> asked - old(asked) == lgCur - old(lgCur)
                             && GrewFor(hashing, Bounds(), old(lgCur) + 1, lgCur, old(asked), asked, old(Items(tab[..])))
      ensures status.Failed? ==> NoRoom(hashing, Bounds(), lgCur + 1, old(asked), asked, old(Items(tab[..])))
      ensures status.Unfinished? ==> draws == 0
    {
      var lg := lgCur;
      while lg < maxLg
        invariant Valid() && lgCur == old(lgCur) <= lg && tab == old(tab) && tab[..] == old(tab[..])
        invariant asked - old(asked) == lg - lgCur
        invariant GrewFor(hashing, Bounds(), lgCur + 1, lg + 1, old(asked), asked, old(Items(tab[..])))
      {
        ghost var items, n := Items(tab[..]), asked;
        lg := lg + 1;
        var refused;
        refused, status := TrySize(lg);
        SizeTried(hashing, Bounds(), old(lgCur) + 1, lg, old(asked), n, items);
        if refused || !status.Failed? {
          return;
        }
      }
      status := Failed;
    }

    /** One size: ask for the memory, swap in the new table and rebuild. */
    method TrySize(lg: nat) returns (refused: bool, status: Status)
      requires Valid() && lg <= maxLg
      modifies this, tab
      ensures tab == old(tab) || fresh(tab)
      ensures asked == old(asked) + 1 && refused == Refused(refuses, old(asked))
      ensures status.Ok? ==> !refused && Valid() && lgCur == lg && Items(tab[..]) == old(Items(tab[..]))
      ensures status.Failed? ==> Valid() && lgCur == old(lgCur) && tab == old(tab) && tab[..] == old(tab[..])
      ensures status.Failed? && !refused ==> Crowded(hashing, cells, lg, old(Items(tab[..])))
      ensures status.Unfinished? ==> !refused && draws == 0
    {
      refused := Refused(refuses, asked);
      asked := asked + 1;
      if refused {
        return true, Failed;
      }
      status := RebuildInto(lg);
    }

    /** `ckh_shrink`: try to halve the table; failing is no error. */
    method Shrink() returns (status: Status)
      requires Valid() && lgCur > 0
      modifies this, tab
      ensures tab == old(tab) || fresh(tab)
      ensures !status.Unfinished? ==> Valid() && Items(tab[..]) == old(Items(tab[..]))
      ensures !status.Unfinished? ==> Halves(hashing, Bounds(), old(lgCur), lgCur, old(asked), asked, Items(tab[..]))
      ensures status.Unfinished? ==> draws == 0
    {
      var refused;
      refused, status := TrySize(lgCur - 1);
    }

    // ---------- The map ----------

    /**
     `ckh_insert` of a key that is absent.  Success adds exactly the new pair; running out of memory
     leaves the table without one item, which may be an older one.
     */
    method Insert(key: K, data: D) returns (status: Status, ghost lost: Cell<K, D>)
      requires Valid()
      requires forall x :: x in Items(tab[..]) && x.Item? ==> !hashing.same(key, x.key)
      modifies this, tab
      ensures tab == old(tab) || fresh(tab)
      ensures status.Ok? ==> Valid() && Items(tab[..]) == old(Items(tab[..])) + multiset{Item(key, data)}
      ensures status.Failed? ==> Valid() && Items(tab[..]) + multiset{lost} == old(Items(tab[..])) + multiset{Item(key, data)}
      ensures status.Failed? ==> NoRoom(hashing, Bounds(), old(lgCur), old(asked), asked, old(Items(tab[..])) + multiset{Item(key, data)})
      ensures status.Unfinished? ==> draws == 0
      ensures !BothFull(hashing, cells, old(lgCur), old(tab[..]), key) ==> status.Ok? && asked == old(asked) && lgCur == old(lgCur)
    {
      var hand := Item(key, data);
      lost := hand;
      ghost var all, first := Items(tab[..]) + multiset{hand}, true;
      AddDistinct(hashing, Items(tab[..]), hand);
      while true
        invariant Valid() && hand.Item? && (tab == old(tab) || fresh(tab))
        invariant Items(tab[..]) + multiset{hand} == all && DistinctKeys(hashing, all)
        invariant first ==> hand == Item(key, data) && tab[..] == old(tab[..]) && lgCur == old(lgCur) && asked == old(asked)
        invariant !first ==> BothFull(hashing, cells, old(lgCur), old(tab[..]), key)
        invariant GrewFor(hashing, Bounds(), old(lgCur), lgCur, old(asked), asked, all)
        decreases maxLg - lgCur
      {
        var inserted;
        ghost var lg, n := lgCur, asked;
        inserted, status, hand := InsertRound(hand, all);
        GrewOn(hashing, Bounds(), old(lgCur), lg, old(asked), n, asked, all);
        first := false;
        if inserted || !status.Ok? {
          lost := hand;
          return;
        }
      }
    }

    /** One round: insert the item in hand, or grow the table and go on with the item that was left over. */
    method InsertRound(hand: Cell<K, D>, ghost all: multiset<Cell<K, D>>) returns (inserted: bool, status: Status, next: Cell<K, D>)
      requires Valid() && hand.Item? && Items(tab[..]) + multiset{hand} == all && DistinctKeys(hashing, all)
      modifies this, tab
      ensures tab == old(tab) || fresh(tab)
      ensures inserted ==> status.Ok? && Valid() && Items(tab[..]) == all && lgCur == old(lgCur) && asked == old(asked)
      ensures !inserted && !status.Unfinished? ==>
                Valid() && next.Item? && Items(tab[..]) + multiset{next} == all && (status.Ok? ==> lgCur > old(lgCur))
      ensures !inserted ==> BothFull(hashing, cells, old(lgCur), old(tab[..]), hand.key)
      ensures !inserted && status.Ok? ==> GrewFor(hashing, Bounds(), old(lgCur), lgCur, old(asked), asked, all)
      ensures !inserted && status.Failed? ==> NoRoom(hashing, Bounds(), old(lgCur), old(asked), asked, all)
      ensures status.Unfinished? ==> draws == 0
    {
      ghost var t, lg, n := tab[..], lgCur, asked;
      var o := TryInsert(hand);
      if o.Inserted? {
        return true, Ok, hand;
      }
      inserted, next := false, o.item;
      if o.Running? {
        status := Unfinished;
      } else {
        ghost var items := Items(tab[..]);
        SubDistinct(hashing, items, all);
        assert Blocks(hashing, cells, lg, all, t, hand);
        status := Grow();
        RoundFails(hashing, Bounds(), lg, lgCur, n, asked, items, all, t, hand);
      }
    }

    /** `ckh_remove`: remove the item with the key, if any, and nothing else; the table may shrink. */
    method Remove(key: K) returns (r: Option<Cell<K, D>>, finished: bool)
      requires Valid()
      modifies this, tab
      ensures tab == old(tab) || fresh(tab)
      ensures r.None? ==> finished && Valid() && tab == old(tab) && tab[..] == old(tab[..])
      ensures r.None? ==> forall x :: x in old(Items(tab[..])) && x.Item? ==> !hashing.same(key, x.key)
      ensures r.Some? ==> r.value in old(Items(tab[..])) && r.value.Item? && hashing.same(key, r.value.key)
      ensures r.Some? && finished ==> Valid() && Items(tab[..]) + multiset{r.value} == old(Items(tab[..]))
      ensures finished || draws == 0
      ensures r.Some? && finished ==>
                Shrinks(hashing, Bounds(), lgMin, old(lgCur), lgCur, old(asked), asked, count, Items(tab[..]))
    {
      var i := ISearch(key);
      finished := true;
      ghost var t := tab[..];
      if i.None? {
        r := None;
        forall x | x in Items(t) && x.Item? ensures !hashing.same(key, x.key) {
          ItemsMember(t, x);
          var j :| 0 <= j < |t| && t[j] == x;
        }
        return;
      }
      r := Some(tab[i.value]);
      ItemsMember(t, r.value);
      assert t[i.value] == r.value;
      Clear(i.value);
      finished := ShrinkIfSparse();
    }

    /** Empty a cell. */
    method Clear(i: nat)
      requires Valid() && i < tab.Length && tab[i].Item?
      modifies tab, this`count
      ensures Valid() && Items(tab[..]) + multiset{old(tab[i])} == old(Items(tab[..]))
    {
      ghost var t := tab[..];
      ItemsClear(t, i);
      SubDistinct(hashing, Items(t[i := Empty]), Items(t));
      tab[i] := Empty;
      assert tab[..] == t[i := Empty];
      count := count - 1;
    }

    /** The tail of `ckh_remove`. */
    method ShrinkIfSparse() returns (finished: bool)
      requires Valid()
      modifies this, tab
      ensures tab == old(tab) || fresh(tab)
      ensures finished || draws == 0
      ensures finished ==> Valid() && Items(tab[..]) == old(Items(tab[..]))
                           && Shrinks(hashing, Bounds(), lgMin, old(lgCur), lgCur, old(asked), asked, old(count), Items(tab[..]))
    {
      finished := true;
      if Sparse(count, cells, lgCur) && lgCur > lgMin {
        var status := Shrink();
        finished := !status.Unfinished?;
      }
    }
  }

  // ---------- Runs against a finite map ----------

  datatype Op<K, D> = Put(key: K, data: D) | Take(key: K) | Look(key: K) | List

  /** What an operation tells its caller: an entry, all items, or that memory ran out. */
  datatype Answer<K, D> = Found(entry: Option<Cell<K, D>>) | Listed(items: seq<Cell<K, D>>) | OutOfMemory

  /** A finite map (a set of items with distinct keys), the size it is kept in, and the requests for memory so far. */
  datatype Map<K(==), D(==)> = Map(items: multiset<Cell<K, D>>, lg: nat, asked: nat)

  /** The entry of the map for a key. */
  ghost function Entry<K, D>(h: Hashing<K>, m: multiset<Cell<K, D>>, key: K): Option<Cell<K, D>> {
    if x :| x in m && x.Item? && h.same(key, x.key) then Some(x) else None
  }

  /** The map after an insertion that ran out of memory: the old entries and the new one, except for one of them. */
  ghost predicate LosesOne<K, D>(all: multiset<Cell<K, D>>, after: multiset<Cell<K, D>>) {
    after <= all && |after| + 1 == |all|
  }

  /**
   Inserting an absent key.  It adds the pair, or loses an entry; the latter only if a request for memory was
   refused, or the items can be in each other's way at every size there is.
   */
  ghost predicate PutStep<K(!new), D(!new)>(h: Hashing<K>, limits: Limits, m: Map<K, D>, item: Cell<K, D>, answer: Answer<K, D>, after: Map<K, D>) {
    var all := m.items + multiset{item};
    match answer
    case Found(entry) => entry.None? && after.items == all
    case OutOfMemory => LosesOne(all, after.items) && NoRoom(h, limits, m.lg, m.asked, after.asked, all)
    case Listed(_) => false
  }

  /** One operation of a finite map.  `Put` leaves an existing entry alone, as the callers of `ckh_insert` must. */
  ghost predicate MapStep<K(!new), D(!new)>(h: Hashing<K>, limits: Limits, m: Map<K, D>, op: Op<K, D>, answer: Answer<K, D>, after: Map<K, D>) {
    match op
    case Put(key, data) =>
      if Entry(h, m.items, key).Some? then answer == Found(Entry(h, m.items, key)) && after == m
      else PutStep(h, limits, m, Item(key, data), answer, after)
    case Take(key) =>
      && answer == Found(Entry(h, m.items, key))
      && after.items == if Entry(h, m.items, key).Some? then m.items - multiset{Entry(h, m.items, key).value} else m.items
    case Look(key) => answer == Found(Entry(h, m.items, key)) && after == m
    case List => answer.Listed? && multiset(answer.items) == m.items && after == m
  }

  /** A run of a finite map through the given states; the last operations may lack an answer. */
  ghost predicate MapRun<K(!new), D(!new)>(h: Hashing<K>, limits: Limits, ops: seq<Op<K, D>>, answers: seq<Answer<K, D>>, maps: seq<Map<K, D>>)
    decreases |ops|
  {
    && |maps| == |answers| + 1 <= |ops| + 1
    && (answers != [] ==>
          MapStep(h, limits, maps[0], ops[0], answers[0], maps[1]) && MapRun(h, limits, ops[1..], answers[1..], maps[1..]))
  }

  ghost function MapOf<K(!new), D(!new)>(t: Ckh<K, D>): Map<K, D>
    reads t, t.tab
  {
    Map(Items(t.tab[..]), t.lgCur, t.asked)
  }

  /** With memory never refused, a map of fewer entries than a bucket has cells takes every new one. */
  lemma SmallMapGrows<K(!new), D(!new)>(h: Hashing<K>, limits: Limits, m: Map<K, D>, item: Cell<K, D>, answer: Answer<K, D>, after: Map<K, D>)
    requires PutStep(h, limits, m, item, answer, after)
    requires |m.items| < limits.cells && m.lg <= limits.maxLg && forall n: nat :: !Refused(limits.refuses, n)
    ensures answer == Found(None) && after.items == m.items + multiset{item}
  {
    FewNeverCrowded(h, limits.cells, m.lg, m.items + multiset{item});
    assert !CrowdedFrom(h, limits.cells, m.lg, limits.maxLg + 1, m.items + multiset{item});
  }

  /**
   Any sequence of insertions, removals, searches and iterations is a run of a finite map, whatever the
   hashes, the random choices and the memory that runs out: the table goes on with one entry less.
   Only running out of draws ends the run early.
   */
  method Replay<K(!new), D(!new)>(t: Ckh<K, D>, ops: seq<Op<K, D>>)
      returns (answers: seq<Answer<K, D>>, ghost maps: seq<Map<K, D>>)
    requires t.Valid()
    modifies t, t.tab
    ensures MapRun(t.hashing, t.Bounds(), ops, answers, maps) && maps[0] == old(MapOf(t))
    ensures |answers| == |ops| ==> t.Valid() && MapOf(t) == maps[|ops|]
    ensures |answers| < |ops| ==> t.draws == 0
    decreases |ops|
  {
    ghost var m := MapOf(t);
    answers, maps := [], [m];
    if ops != [] {
      var answer, finished := ReplayOne(t, ops[0]);
      if finished {
        var rest, more := Replay(t, ops[1..]);
        answers, maps := [answer] + rest, [m] + more;
        assert answers[1..] == rest && maps[1..] == more;
      }
    }
  }

  method ReplayOne<K(!new), D(!new)>(t: Ckh<K, D>, op: Op<K, D>) returns (answer: Answer<K, D>, finished: bool)
    requires t.Valid()
    modifies t, t.tab
    ensures t.tab == old(t.tab) || fresh(t.tab)
    ensures finished ==> t.Valid() && MapStep(t.hashing, t.Bounds(), old(MapOf(t)), op, answer, MapOf(t))
    ensures finished || t.draws == 0
  {
    ghost var m := Items(t.tab[..]);
    finished := true;
    match op
    case Put(key, data) =>
      answer, finished := PutOne(t, key, data);
    case Take(key) =>
      var entry;
      entry, finished := t.Remove(key);
      EntryIs(t.hashing, m, key, entry);
      answer := Found(entry);
    case Look(key) =>
      var entry := t.Search(key);
      EntryIs(t.hashing, m, key, entry);
      answer := Found(entry);
    case List =>
      var items := t.Iterate();
      answer := Listed(items);
  }

  /** Insert, unless there is an entry already. */
  method PutOne<K(!new), D(!new)>(t: Ckh<K, D>, key: K, data: D) returns (answer: Answer<K, D>, finished: bool)
    requires t.Valid()
    modifies t, t.tab
    ensures t.tab == old(t.tab) || fresh(t.tab)
    ensures finished ==> t.Valid() && MapStep(t.hashing, t.Bounds(), old(MapOf(t)), Put(key, data), answer, MapOf(t))
    ensures finished || t.draws == 0
  {
    ghost var m := Items(t.tab[..]);
    var entry := t.Search(key);
    EntryIs(t.hashing, m, key, entry);
    if entry.Some? {
      return Found(entry), true;
    }
    var status, lost := t.Insert(key, data);
    if status.Failed? {
      Lost(m + multiset{Item(key, data)}, Items(t.tab[..]), lost);
    }
    answer := if status.Failed? then OutOfMemory else Found(None);
    finished := !status.Unfinished?;
  }

  lemma Lost<K, D>(all: multiset<Cell<K, D>>, after: multiset<Cell<K, D>>, lost: Cell<K, D>)
    requires after + multiset{lost} == all
    ensures LosesOne(all, after)
  {
    assert |after + multiset{lost}| == |after| + 1;
  }

  lemma EntryIs<K(!new), D>(h: Hashing<K>, m: multiset<Cell<K, D>>, key: K, r: Option<Cell<K, D>>)
    requires Lawful(h) && DistinctKeys(h, m)
    requires r.Some? ==> r.value in m && r.value.Item? && h.same(key, r.value.key)
    requires r.None? ==> forall x :: x in m && x.Item? ==> !h.same(key, x.key)
    ensures r == Entry(h, m, key)
  {
    if r.Some? {
      var e := Entry(h, m, key);
      assert e.Some?;
      assert h.same(r.value.key, key) && h.same(r.value.key, e.value.key);
    }
  }

  lemma AddDistinct<K, D>(h: Hashing<K>, m: multiset<Cell<K, D>>, c: Cell<K, D>)
    requires DistinctKeys(h, m) && c.Item?
    requires forall x :: x in m && x.Item? ==> !h.same(c.key, x.key) && !h.same(x.key, c.key)
    requires c !in m
    ensures DistinctKeys(h, m + multiset{c})
  {
  }

  lemma SubDistinct<K, D>(h: Hashing<K>, m: multiset<Cell<K, D>>, all: multiset<Cell<K, D>>)
    requires DistinctKeys(h, all) && m <= all
    ensures DistinctKeys(h, m)
  {
  }
}
