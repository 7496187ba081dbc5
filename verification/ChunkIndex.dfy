/**
 The pair of red-black trees of chunk.c over the same mutable nodes.

 Each tree is the sequence of its nodes in tree order.  A node keeps its place when its fields are
 edited, exactly as in a tree, so an edit is only sound if the order still holds afterwards.
 Searching, inserting and removing compare keys; the red-black balancing is not modelled.
 */
module ChunkIndex {
  import opened SizeClasses
  import opened Extents
  import opened Recycling
  import opened Wrappers

  class ExtentNode {
    var addr: nat
    var size: nat
    var zeroed: bool
    var committed: bool

    constructor (addr: nat, size: nat, zeroed: bool, committed: bool)
      ensures View() == Extent(addr, size, zeroed, committed)
    {
      this.addr, this.size, this.zeroed, this.committed := addr, size, zeroed, committed;
    }

    function View(): Extent
      reads this
    {
      Extent(addr, size, zeroed, committed)
    }
  }

  /** The values of a tree's nodes, in tree order. */
  ghost function Views(ns: seq<ExtentNode>): (s: seq<Extent>)
    reads ns
    ensures |s| == |ns| && forall i :: 0 <= i < |ns| ==> s[i] == ns[i].View()
  {
    seq(|ns|, i requires 0 <= i < |ns| reads ns => ns[i].View())
  }

  ghost predicate AdOrdered(s: seq<Extent>) {
    forall i, j :: 0 <= i < j < |s| ==> s[i].addr < s[j].addr
  }

  ghost predicate SzadOrdered(c: Config, s: seq<Extent>) {
    forall i, j :: 0 <= i < j < |s| ==> SzadLess(c, s[i], s[j])
  }

  /** The sequence without position `p`. */
  ghost function Without<T>(s: seq<T>, p: nat): seq<T>
    requires p < |s|
  {
    s[..p] + s[p + 1..]
  }

  ghost function With<T>(s: seq<T>, p: nat, x: T): seq<T>
    requires p <= |s|
  {
    s[..p] + [x] + s[p..]
  }

  lemma ViewsWithout(ns: seq<ExtentNode>, p: nat)
    requires p < |ns|
    ensures Views(Without(ns, p)) == Without(Views(ns), p)
  {
  }

  lemma ViewsWith(ns: seq<ExtentNode>, p: nat, n: ExtentNode)
    requires p <= |ns|
    ensures Views(With(ns, p, n)) == With(Views(ns), p, n.View())
  {
  }

  /** A node put at its place in the size tree keeps the order. */
  lemma InsertNode(c: Config, ns: seq<ExtentNode>, k: nat, node: ExtentNode)
    requires SzadOrdered(c, Views(ns)) && k <= |ns|
    requires forall n :: n in ns ==> n.addr != node.addr
    requires forall i :: 0 <= i < k ==> SzadLess(c, ns[i].View(), node.View())
    requires k < |ns| ==> !SzadLess(c, ns[k].View(), node.View())
    ensures SzadOrdered(c, Views(With(ns, k, node))) && Views(With(ns, k, node)) == With(Views(ns), k, node.View())
  {
    ViewsWith(ns, k, node);
    InsertOrdered(c, Views(ns), k, node.View());
  }

  /** An address between the neighbours of a gap is no other node's key. */
  lemma KeyIsFree(ad: seq<ExtentNode>, szad: seq<ExtentNode>, i: nat, j: nat, addr: nat)
    requires i <= j <= |ad| && j <= i + 1 && Between(Views(ad), i, j, addr)
    requires forall n :: n in szad ==> n in ad
    ensures forall m :: m in szad && (i < j ==> m != ad[i]) ==> m.addr != addr
  {
    forall m | m in szad && (i < j ==> m != ad[i]) ensures m.addr != addr {
      assert m in ad;
      var p :| 0 <= p < |ad| && ad[p] == m;
      assert Views(ad)[p].addr == m.addr;
    }
  }

  lemma ViewsInclude(ns: seq<ExtentNode>, ms: seq<ExtentNode>)
    requires forall n :: n in ns ==> n in ms
    ensures forall i :: 0 <= i < |ns| ==> Views(ns)[i] in Views(ms)
  {
    forall i | 0 <= i < |ns| ensures Views(ns)[i] in Views(ms) {
      assert ns[i] in ms;
      var q :| 0 <= q < |ms| && ms[q] == ns[i];
      assert Views(ms)[q] == Views(ns)[i];
    }
  }

  /** The node found at its key is the one to remove, and removing it keeps the order. */
  lemma RemoveNode(c: Config, ns: seq<ExtentNode>, k: nat, node: ExtentNode)
    requires SzadOrdered(c, Views(ns)) && k <= |ns| && node in ns
    requires forall i :: 0 <= i < k ==> SzadLess(c, ns[i].View(), node.View())
    requires k < |ns| ==> !SzadLess(c, ns[k].View(), node.View())
    ensures k < |ns| && ns[k] == node
    ensures SzadOrdered(c, Views(Without(ns, k)))
    ensures forall n :: n in Without(ns, k) <==> n in ns && n != node
  {
    PlaceOfMember(c, Views(ns), k, node.View());
    var p :| 0 <= p < |ns| && ns[p] == node;
    assert Views(ns)[p] == node.View();
    SizeDistinct(c, ns);
    RemoveOrdered(c, Views(ns), k);
    RemoveMembers(ns, k);
    ViewsWithout(ns, k);
  }

  lemma SizeDistinct(c: Config, ns: seq<ExtentNode>)
    requires SzadOrdered(c, Views(ns))
    ensures forall i, j :: 0 <= i < j < |ns| ==> ns[i] != ns[j]
  {
    forall i, j | 0 <= i < j < |ns| ensures ns[i] != ns[j] {
      assert SzadLess(c, Views(ns)[i], Views(ns)[j]);
    }
  }

  lemma AdDistinct(ns: seq<ExtentNode>)
    requires AdOrdered(Views(ns))
    ensures forall i, j :: 0 <= i < j < |ns| ==> ns[i] != ns[j]
  {
    forall i, j | 0 <= i < j < |ns| ensures ns[i] != ns[j] {
      assert Views(ns)[i].addr < Views(ns)[j].addr;
    }
  }

  /** `extent_tree_szad_nsearch` with address NULL: the first node of sufficient quantised size. */
  method SzadNsearch(c: Config, tree: seq<ExtentNode>, want: nat) returns (k: nat)
    ensures k <= |tree|
    ensures forall i :: 0 <= i < k ==> !Sufficient(c, tree[i].View(), want)
    ensures k < |tree| ==> Sufficient(c, tree[k].View(), want)
  {
    k := 0;
    while k < |tree| && !Sufficient(c, tree[k].View(), want)
      invariant k <= |tree|
      invariant forall i :: 0 <= i < k ==> !Sufficient(c, tree[i].View(), want)
    {
      k := k + 1;
    }
  }

  /** Where a node belongs in the size tree. */
  method SzadPlace(c: Config, tree: seq<ExtentNode>, node: ExtentNode) returns (k: nat)
    ensures k <= |tree|
    ensures forall i :: 0 <= i < k ==> SzadLess(c, tree[i].View(), node.View())
    ensures k < |tree| ==> !SzadLess(c, tree[k].View(), node.View())
  {
    k := 0;
    while k < |tree| && SzadLess(c, tree[k].View(), node.View())
      invariant k <= |tree|
      invariant forall i :: 0 <= i < k ==> SzadLess(c, tree[i].View(), node.View())
    {
      k := k + 1;
    }
  }

  class ChunkTrees {
    const c: Config
    const cache: bool
    var szad: seq<ExtentNode>
    var ad: seq<ExtentNode>
    ghost var nodes: set<ExtentNode>  // every node ever linked: what the methods may edit

    ghost predicate SameNodes()
      reads this
    {
      && (forall n :: n in szad ==> n in ad)
      && (forall n :: n in ad ==> n in szad)
    }

    /** Both trees hold the same nodes, each in its own order. */
    ghost predicate Indexed()
      reads this, ad, szad
    {
      && SameNodes()
      && SzadOrdered(c, Views(szad))
      && AdOrdered(Views(ad))
      && (forall n :: n in ad ==> n in nodes)
    }

    ghost predicate Valid()
      reads this, ad, szad
    {
      && Indexed()
      && WellFormed(c, cache, Views(ad))
    }

    constructor (c: Config, cache: bool)
      ensures Valid() && Views(ad) == [] && nodes == {} && this.c == c && this.cache == cache
    {
      this.c, this.cache := c, cache;
      szad, ad, nodes := [], [], {};
    }

    // ---------- Tree operations ----------

    /** `extent_tree_ad_nsearch`: position of the first node at or after `key`. */
    method AdNsearch(key: nat) returns (k: nat)
      ensures k == LowerBound(Views(ad), key)
    {
      k := 0;
      while k < |ad| && ad[k].addr < key
        invariant k <= |ad|
        invariant forall i :: 0 <= i < k ==> ad[i].addr < key
      {
        k := k + 1;
      }
      LowerBoundIs(Views(ad), key, k);
    }

    method SzadInsert(node: ExtentNode)
      requires SzadOrdered(c, Views(szad))
      requires forall m :: m in szad ==> m.addr != node.addr
      modifies this`szad
      ensures SzadOrdered(c, Views(szad))
      ensures forall n :: n in szad <==> n == node || n in old(szad)
    {
      var k := SzadPlace(c, szad, node);
      InsertNode(c, szad, k, node);
      InsertMembers(szad, k, node);
      szad := szad[..k] + [node] + szad[k..];
    }

    /** Removal walks down by key; the order guarantees that it arrives at the node. */
    method SzadRemove(node: ExtentNode)
      requires SzadOrdered(c, Views(szad)) && node in szad
      modifies this`szad
      ensures SzadOrdered(c, Views(szad))
      ensures forall n :: n in szad <==> n in old(szad) && n != node
    {
      var k := SzadPlace(c, szad, node);
      RemoveNode(c, szad, k, node);
      szad := szad[..k] + szad[k + 1..];
    }

    method AdInsert(node: ExtentNode, ghost k: nat)
      requires k <= |ad| && node !in ad
      requires Between(Views(ad), k, k, node.addr)
      modifies this`ad
      ensures ad == With(old(ad), k, node)
    {
      var p := AdNsearch(node.addr);
      LowerBoundIs(Views(ad), node.addr, k);
      ad := ad[..p] + [node] + ad[p..];
    }

    method AdRemove(node: ExtentNode, ghost k: nat)
      requires AdOrdered(Views(ad)) && k < |ad| && ad[k] == node
      modifies this`ad
      ensures ad == Without(old(ad), k)
    {
      var p := AdNsearch(node.addr);
      LowerBoundIs(Views(ad), node.addr, k);
      ad := ad[..p] + ad[p + 1..];
    }

    /**
     Edit a node in place: out of the size tree, fields changed, back into the size tree.  It stays
     where it is in the address tree, so its new address must lie between its neighbours.
     */
    method Rekey(k: nat, addr: nat, size: nat, zeroed: bool)
      requires Indexed() && k < |ad|
      requires Between(Views(ad), k, k + 1, addr)
      modifies this`szad, ad[k]
      ensures Indexed()
      ensures Views(ad) == old(Views(ad))[k := Extent(addr, size, zeroed, old(ad[k].committed))]
    {
      var node := ad[k];
      ghost var s := Views(ad);
      AdDistinct(ad);
      KeyIsFree(ad, szad, k, k + 1, addr);
      UpdateAdOrdered(s, k, Extent(addr, size, zeroed, s[k].committed));
      SzadRemove(node);
      Edit(k, addr, size, zeroed);
      SzadInsert(node);
    }

    /** Change the fields of a node that is in the address tree only. */
    method Edit(k: nat, addr: nat, size: nat, zeroed: bool)
      requires k < |ad| && ad[k] !in szad && forall i :: 0 <= i < |ad| && i != k ==> ad[i] != ad[k]
      modifies ad[k]
      ensures Views(szad) == old(Views(szad)) && ad[k].addr == addr
      ensures Views(ad) == old(Views(ad))[k := Extent(addr, size, zeroed, old(ad[k].committed))]
    {
      var node := ad[k];
      node.addr := addr;
      node.size := size;
      node.zeroed := zeroed;
    }

    /** Insert a node into both trees. */
    method Link(node: ExtentNode, ghost k: nat)
      requires Indexed() && k <= |ad| && node !in ad
      requires Between(Views(ad), k, k, node.addr)
      modifies this
      ensures Indexed() && nodes == old(nodes) + {node}
      ensures ad == With(old(ad), k, node)
      ensures Views(ad) == With(old(Views(ad)), k, node.View())
    {
      ghost var s := Views(ad);
      InsertAdOrdered(s, k, node.View());
      KeyIsFree(ad, szad, k, k, node.addr);
      SzadInsert(node);
      assert Views(ad) == s;
      InsertBoth(node, k);
    }

    /** The second half of `Link`: the node is in the size tree already. */
    method InsertBoth(node: ExtentNode, ghost k: nat)
      requires k <= |ad| && node !in ad && Between(Views(ad), k, k, node.addr) && AdOrdered(With(Views(ad), k, node.View()))
      requires SzadOrdered(c, Views(szad)) && forall n :: n in szad <==> n == node || n in ad
      requires forall n :: n in ad ==> n in nodes
      modifies this`ad, this`nodes
      ensures Indexed() && nodes == old(nodes) + {node}
      ensures ad == With(old(ad), k, node)
      ensures Views(ad) == With(old(Views(ad)), k, node.View())
    {
      ViewsWith(ad, k, node);
      InsertMembers(ad, k, node);
      ghost var s, z := Views(ad), Views(szad);
      nodes := nodes + {node};
      AdInsert(node, k);
      assert Views(szad) == z;
      assert Views(ad) == With(s, k, node.View());
    }

    /** Allocate a node, describe a range with it and insert it. */
    method LinkNew(ghost k: nat, addr: nat, size: nat, zeroed: bool, committed: bool)
      requires Indexed() && k <= |ad| && Between(Views(ad), k, k, addr)
      modifies this
      ensures Indexed() && fresh(nodes - old(nodes))
      ensures Views(ad) == With(old(Views(ad)), k, Extent(addr, size, zeroed, committed))
    {
      ghost var s := Views(ad);
      var node := new ExtentNode(addr, size, zeroed, committed);
      assert Views(ad) == s;
      Link(node, k);
    }

    /** Remove a node from both trees. */
    method Unlink(k: nat)
      requires Indexed() && k < |ad|
      modifies this`szad, this`ad
      ensures Indexed()
      ensures ad == Without(old(ad), k) && old(ad)[k] !in ad
      ensures Views(ad) == Without(old(Views(ad)), k)
    {
      var node := ad[k];
      ghost var s := Views(ad);
      RemoveAdOrdered(s, k);
      SzadRemove(node);
      assert Views(ad) == s;
      RemoveBoth(node, k);
    }

    /** The second half of `Unlink`: the node is out of the size tree already. */
    method RemoveBoth(node: ExtentNode, ghost k: nat)
      requires k < |ad| && ad[k] == node && AdOrdered(Views(ad)) && AdOrdered(Without(Views(ad), k))
      requires SzadOrdered(c, Views(szad)) && forall n :: n in szad <==> n in ad && n != node
      requires forall n :: n in ad ==> n in nodes
      modifies this`ad
      ensures Indexed() && ad == Without(old(ad), k) && node !in ad
      ensures Views(ad) == Without(old(Views(ad)), k)
    {
      AdDistinct(ad);
      RemoveMembers(ad, k);
      ViewsWithout(ad, k);
      ghost var s, z := Views(ad), Views(szad);
      AdRemove(node, k);
      assert Views(szad) == z;
      assert Views(ad) == Without(s, k);
    }

    // ---------- chunk_record ----------

    /** Coalesce the range with the node at position `k`, or insert a new node there. */
    method RecordForward(k: nat, chunk: nat, size: nat, zeroed: bool, committed: bool, env: RecordEnv)
        returns (leaked: bool)
      requires Indexed() && k <= |ad| && Between(Views(ad), k, k, chunk) && !(cache && zeroed)
      modifies this, nodes
      ensures Indexed() && fresh(nodes - old(nodes))
      ensures var e := Extent(chunk, size, zeroed, committed);
              && leaked == (!MergesForward(old(Views(ad)), k, e, env) && env.nodeFails)
              && (leaked ==> Views(ad) == old(Views(ad)))
              && (!leaked ==> Views(ad) == ForwardStep(old(Views(ad)), k, e, env))
    {
      var unzeroed := cache || !zeroed;
      leaked := false;
      if k < |ad| && ad[k].addr == chunk + size && ad[k].committed == committed && !env.refuseForward {
        Rekey(k, chunk, size + ad[k].size, ad[k].zeroed && !unzeroed);
      } else if env.nodeFails {
        leaked := true;
      } else {
        LinkNew(k, chunk, size, !unzeroed, committed);
      }
    }

    /** Coalesce the node at position `k` backward. */
    method RecordBackward(k: nat, chunk: nat, committed: bool, env: RecordEnv, ghost e: Extent)
      requires Indexed() && k < |ad| && Views(ad)[k].addr == chunk == e.addr && e.committed == committed
      modifies this, nodes
      ensures Indexed() && nodes == old(nodes)
      ensures Views(ad) == BackwardStep(old(Views(ad)), k, e, env)
    {
      ghost var s := Views(ad);
      if k > 0 {
        var prev := ad[k - 1];
        if prev.addr + prev.size == chunk && prev.committed == committed && !env.refuseBackward {
          MergeBackward(k);
        }
      }
    }

    /** Merge the node at position `k` with the one before it. */
    method MergeBackward(k: nat)
      requires Indexed() && 0 < k < |ad|
      modifies this, nodes
      ensures Indexed() && nodes == old(nodes)
      ensures var s := old(Views(ad)); Views(ad) == (s[..k - 1] + s[k..])[k - 1 := MergedBackward(s[k - 1], s[k])]
    {
      MergePlace(Views(ad), k);
      var prev := ad[k - 1].View();
      Unlink(k - 1);
      TakeOver(k - 1, prev);
    }

    /** The node at position `k` takes over the space in front of it. */
    method TakeOver(k: nat, prev: Extent)
      requires Indexed() && k < |ad| && Between(Views(ad), k, k + 1, prev.addr)
      modifies this`szad, ad[k]
      ensures Indexed()
      ensures Views(ad) == old(Views(ad))[k := MergedBackward(prev, old(Views(ad))[k])]
    {
      var node := ad[k];
      Rekey(k, prev.addr, prev.size + node.size, prev.zeroed && node.zeroed);
    }

    /** `chunk_record`: give a range back to the trees. */
    method RecordChunk(chunk: nat, size: nat, zeroed: bool, committed: bool, env: RecordEnv) returns (leaked: bool)
      requires Valid() && Recordable(c, cache, Views(ad), Extent(chunk, size, zeroed, committed))
      modifies this, nodes
      ensures Valid() && fresh(nodes - old(nodes))
      ensures var e := Extent(chunk, size, zeroed, committed);
              && leaked == Leaks(old(Views(ad)), e, env)
              && Views(ad) == Record(old(Views(ad)), e, env)
    {
      ghost var e := Extent(chunk, size, zeroed, committed);
      ghost var s := Views(ad);
      RecordPlan(c, cache, s, e, env);
      leaked := SearchAndRecord(chunk, size, zeroed, committed, env);
    }

    method SearchAndRecord(chunk: nat, size: nat, zeroed: bool, committed: bool, env: RecordEnv)
        returns (leaked: bool)
      requires var e := Extent(chunk, size, zeroed, committed);
               Indexed() && Plan(Views(ad), LowerBound(Views(ad), e.End()), e, env) && !(cache && zeroed)
      modifies this, nodes
      ensures Indexed() && fresh(nodes - old(nodes))
      ensures var e := Extent(chunk, size, zeroed, committed);
              && leaked == Leaks(old(Views(ad)), e, env)
              && Views(ad) == Record(old(Views(ad)), e, env)
    {
      var k := AdNsearch(chunk + size);
      leaked := RecordSteps(k, chunk, size, zeroed, committed, env);
    }

    method RecordSteps(k: nat, chunk: nat, size: nat, zeroed: bool, committed: bool, env: RecordEnv)
        returns (leaked: bool)
      requires Indexed() && Plan(Views(ad), k, Extent(chunk, size, zeroed, committed), env) && !(cache && zeroed)
      modifies this, nodes
      ensures Indexed() && fresh(nodes - old(nodes))
      ensures var e := Extent(chunk, size, zeroed, committed);
              && leaked == (!MergesForward(old(Views(ad)), k, e, env) && env.nodeFails)
              && (leaked ==> Views(ad) == old(Views(ad)))
              && (!leaked ==> Views(ad) == BackwardStep(ForwardStep(old(Views(ad)), k, e, env), k, e, env))
    {
      leaked := RecordForward(k, chunk, size, zeroed, committed, env);
      if !leaked {
        RecordBackward(k, chunk, committed, env, Extent(chunk, size, zeroed, committed));
      }
    }

    // ---------- chunk_recycle ----------

    /** `chunk_first_best_fit` in the size tree, as a position of the address tree. */
    method FirstBestFit(want: nat) returns (j: nat)
      requires Indexed()
      ensures j == BestFit(c, Views(ad), want)
    {
      var p := SzadNsearch(c, szad, want);
      ghost var s, z := Views(ad), Views(szad);
      ViewsInclude(ad, szad);
      if p == |szad| {
        j := |ad|;
        NoFit(c, s, z, want);
      } else {
        var node := szad[p];
        j := FindNode(node);
        FirstInSizeOrderIsBest(c, s, z, j, p, want);
      }
    }

    /** The place of a node in the address tree. */
    method FindNode(node: ExtentNode) returns (j: nat)
      requires AdOrdered(Views(ad)) && node in ad
      ensures j < |ad| && Views(ad)[j] == node.View()
    {
      ghost var k :| 0 <= k < |ad| && ad[k] == node;
      j := AdNsearch(node.addr);
      LowerBoundIs(Views(ad), node.addr, k);
    }

    /** The node that `chunk_recycle` takes, |ad| for NULL. */
    method FindChunk(r: Request) returns (j: nat)
      requires Indexed() && r.alignment >= c.chunk
      ensures j == Choose(c, Views(ad), r)
    {
      match r.newAddr
      case Some(addr) =>
        j := AdNsearch(addr);
        if !(j < |ad| && ad[j].addr == addr) || ad[j].size < r.size {
          j := |ad|;
        }
      case None =>
        j := FirstBestFit(AllocSize(c, r));
    }

    /** Take the node at `j` out of both trees and put its lead back; the node is returned when there is no lead. */
    method TakeOut(j: nat, lead: nat) returns (node: ExtentNode?)
      requires Indexed() && j < |ad|
      modifies this, ad[j]
      ensures Indexed() && nodes == old(nodes)
      ensures Views(ad) == Carve(old(Views(ad)), j, LeadPart(old(Views(ad)[j]), lead))
      ensures (node == null) == (lead != 0) && (node != null ==> node in nodes && node !in ad)
    {
      ghost var s := Views(ad);
      node := ad[j];
      Unlink(j);
      if lead != 0 {
        PutLead(node, lead, s, j);
        node := null;
      }
    }

    /** The node goes back with its lead only. */
    method PutLead(node: ExtentNode, lead: nat, ghost s: seq<Extent>, ghost j: nat)
      requires Indexed() && node !in ad && node in nodes && j < |s| && AdOrdered(s)
      requires Views(ad) == Without(s, j) && s[j] == node.View() && lead != 0
      modifies this, node
      ensures Indexed() && nodes == old(nodes) && Views(ad) == Carve(s, j, LeadPart(s[j], lead))
    {
      ghost var z := Views(szad);
      assert node !in szad;
      node.size := lead;
      assert Views(szad) == z;
      assert Views(ad) == Without(s, j);
      LeadFits(s, j, lead);
      Link(node, j);
    }

    /** Insert the trail at position `k`, in the node at hand if there is one. */
    method LinkTrail(k: nat, reuse: ExtentNode?, addr: nat, size: nat, zeroed: bool, committed: bool)
      requires Indexed() && k <= |ad| && Between(Views(ad), k, k, addr)
      requires reuse != null ==> reuse in nodes && reuse !in ad
      modifies this, reuse
      ensures Indexed() && fresh(nodes - old(nodes))
      ensures Views(ad) == With(old(Views(ad)), k, Extent(addr, size, zeroed, committed))
    {
      if reuse == null {
        LinkNew(k, addr, size, zeroed, committed);
      } else {
        ghost var s, z := Views(ad), Views(szad);
        assert reuse !in szad;
        reuse.addr, reuse.size, reuse.zeroed, reuse.committed := addr, size, zeroed, committed;
        assert Views(ad) == s && Views(szad) == z;
        Link(reuse, k);
      }
    }

    method PutTrail(j: nat, e: Extent, lead: nat, size: nat, node: ExtentNode?, ghost s: seq<Extent>)
      requires Indexed() && j < |s| && s[j] == e && 0 < size && lead + size < e.size && (node == null) == (lead != 0)
      requires Sorted(s) && forall i :: 0 <= i < |s| ==> s[i].size > 0
      requires Views(ad) == Carve(s, j, LeadPart(e, lead))
      requires node != null ==> node in nodes && node !in ad
      modifies this, node
      ensures Indexed() && fresh(nodes - old(nodes))
      ensures Views(ad) == Carve(s, j, LeadPart(e, lead) + TrailPart(e, lead, size))
    {
      var k := if lead != 0 then j + 1 else j;
      TrailPlan(s, j, e, lead, size, k);
      LinkTrail(k, node, e.addr + lead + size, e.size - lead - size, e.zeroed, e.committed);
    }

    /** Carve the range out of the node at `j`: lead and trail go back into the trees unless a hook or the node allocator refuses the trail. */
    method CarveNode(j: nat, lead: nat, size: nat, env: TakeEnv) returns (trailLinked: bool)
      requires Indexed() && j < |ad| && lead + size <= ad[j].size && size > 0
      requires Sorted(Views(ad)) && forall i :: 0 <= i < |ad| ==> Views(ad)[i].size > 0
      modifies this, nodes
      ensures Indexed() && fresh(nodes - old(nodes))
      ensures var s := old(Views(ad));
              var e := s[j];
              && trailLinked == !(lead + size != e.size && (env.refuseTrail || (lead != 0 && env.nodeFails)))
              && (trailLinked ==> Views(ad) == Carve(s, j, LeadPart(e, lead) + TrailPart(e, lead, size)))
              && (!trailLinked ==> Views(ad) == Carve(s, j, LeadPart(e, lead)))
    {
      ghost var s := Views(ad);
      var e := ad[j].View();
      var node := TakeOut(j, lead);
      trailLinked := true;
      if lead + size != e.size {
        if env.refuseTrail || (node == null && env.nodeFails) {
          trailLinked := false;
        } else {
          PutTrail(j, e, lead, size, node, s);
        }
      } else {
        assert LeadPart(e, lead) + TrailPart(e, lead, size) == LeadPart(e, lead);
      }
    }

    /** `chunk_recycle` from the point where the node at `j` has been chosen. */
    method TakeNode(j: nat, r: Request, env: TakeEnv) returns (reply: TakeReply)
      requires Valid() && Requestable(c, r) && AllocSize(c, r) >= r.size
      requires j < |ad| && j == Choose(c, Views(ad), r)
      modifies this, nodes
      ensures Indexed() && fresh(nodes - old(nodes))
      ensures Views(ad) == Take(c, old(Views(ad)), r, env).free
      ensures reply == TakeReplyOf(Take(c, old(Views(ad)), r, env))
    {
      ghost var s := Views(ad);
      ChosenCuts(c, cache, s, r);
      var lead := LeadSize(ad[j].View(), r.alignment);
      if lead != 0 && env.refuseLead {
        reply := TakeReply(None, r.zero || ad[j].zeroed, r.commit || ad[j].committed, false, false, None);
      } else {
        reply := CarveAndCommit(j, lead, r, env);
      }
    }

    /** Carve the range out of the node and commit it; what a failing exit took out is part of the reply. */
    method CarveAndCommit(j: nat, lead: nat, r: Request, env: TakeEnv) returns (reply: TakeReply)
      requires Valid() && r.alignment > 0 && j < |ad| && lead == LeadSize(Views(ad)[j], r.alignment)
      requires Cuts(c, Views(ad)[j], lead, r.size) && !(lead != 0 && env.refuseLead)
      modifies this, nodes
      ensures Indexed() && fresh(nodes - old(nodes))
      ensures Views(ad) == TakeAt(old(Views(ad)), j, r, env).free
      ensures reply == TakeReplyOf(TakeAt(old(Views(ad)), j, r, env))
    {
      var e := ad[j].View();
      var zero, commit := r.zero || e.zeroed, r.commit || e.committed;
      var trailLinked := CarveNode(j, lead, r.size, env);
      if !trailLinked {
        reply := TakeReply(None, zero, commit, false, false, Some(BehindLead(e, lead)));
      } else if !e.committed && env.refuseCommit {
        reply := TakeReply(None, zero, commit, false, false, Some(Middle(e, lead, r.size)));
      } else {
        reply := TakeReply(Some(e.addr + lead), zero, commit, !e.committed, zero && !e.zeroed, None);
      }
    }

    /** The first critical section of `chunk_recycle`. */
    method TakeChunk(r: Request, env: TakeEnv) returns (reply: TakeReply)
      requires Valid() && Requestable(c, r)
      modifies this, nodes
      ensures Valid() && fresh(nodes - old(nodes))
      ensures Views(ad) == Take(c, old(Views(ad)), r, env).free
      ensures reply == TakeReplyOf(Take(c, old(Views(ad)), r, env))
    {
      TakeConserves(c, cache, Views(ad), r, env);
      reply := ChooseAndTake(r, env);
    }

    method ChooseAndTake(r: Request, env: TakeEnv) returns (reply: TakeReply)
      requires Valid() && Requestable(c, r)
      modifies this, nodes
      ensures Indexed() && fresh(nodes - old(nodes))
      ensures Views(ad) == Take(c, old(Views(ad)), r, env).free
      ensures reply == TakeReplyOf(Take(c, old(Views(ad)), r, env))
    {
      reply := TakeReply(None, r.zero, r.commit, false, false, None);
      if AllocSize(c, r) >= r.size {
        var j := FindChunk(r);
        if j < |ad| {
          reply := TakeNode(j, r, env);
        }
      }
    }

    /** `chunk_recycle`: take an aligned range out of the trees; a failing exit records what it took out. */
    method RecycleChunk(r: Request, env: TakeEnv, rerecord: RecordEnv) returns (reply: Reply)
      requires Valid() && Requestable(c, r)
      modifies this, nodes
      ensures Valid() && fresh(nodes - old(nodes))
      ensures Views(ad) == Recycle(c, old(Views(ad)), r, env, rerecord).free
      ensures reply == ReplyOf(Recycle(c, old(Views(ad)), r, env, rerecord))
    {
      ghost var t := Take(c, Views(ad), r, env);
      TakeConserves(c, cache, Views(ad), r, env);
      var taken := TakeChunk(r, env);
      reply := FinishChunk(t, taken, rerecord);
    }

    /** The second critical section, which only a failing exit has. */
    method FinishChunk(ghost t: Taken, taken: TakeReply, rerecord: RecordEnv) returns (reply: Reply)
      requires Valid() && Views(ad) == t.free && taken == TakeReplyOf(t)
      requires t.back.Some? ==> Recordable(c, cache, t.free, t.back.value)
      modifies this, nodes
      ensures Valid() && fresh(nodes - old(nodes))
      ensures Views(ad) == Finish(t, rerecord).free && reply == ReplyOf(Finish(t, rerecord))
    {
      match taken.back
      case None =>
        reply := Reply(taken.ret, taken.zero, taken.commit, taken.hooked, taken.memset, false);
      case Some(e) =>
        var leaked := RecordChunk(e.addr, e.size, e.zeroed, e.committed, rerecord);
        reply := Reply(None, taken.zero, taken.commit, false, false, leaked);
    }
  }

  /** What the first critical section leaves in its local variables. */
  datatype TakeReply = TakeReply(ret: Option<nat>, zero: bool, commit: bool, hooked: bool, memset: bool, back: Option<Extent>)

  function TakeReplyOf(t: Taken): TakeReply {
    TakeReply(t.ret, t.zero, t.commit, t.hooked, t.memset, t.back)
  }

  /** What `chunk_recycle` does for its caller; `leaked` is visible only in the trees. */
  datatype Reply = Reply(ret: Option<nat>, zero: bool, commit: bool, hooked: bool, memset: bool, leaked: bool)

  function ReplyOf(o: Outcome): Reply {
    Reply(o.ret, o.zero, o.commit, o.hooked, o.memset, o.leaked.Some?)
  }

  /** The successor takes the place of the extent removed, and may take over its address. */
  lemma MergePlace(s: seq<Extent>, k: nat)
    requires AdOrdered(s) && 0 < k < |s|
    ensures var t := Without(s, k - 1);
            t == s[..k - 1] + s[k..] && t[k - 1] == s[k] && Between(t, k - 1, k, s[k - 1].addr)
  {
  }

  /** The lead belongs where the extent was. */
  lemma LeadFits(s: seq<Extent>, j: nat, lead: nat)
    requires j < |s| && AdOrdered(s) && lead != 0
    ensures Between(Without(s, j), j, j, s[j].addr)
    ensures With(Without(s, j), j, s[j].(size := lead)) == Carve(s, j, LeadPart(s[j], lead))
  {
  }

  /** The trail belongs right behind the lead. */
  lemma TrailFits(s: seq<Extent>, j: nat, lead: nat, size: nat)
    requires j < |s| && Sorted(s) && 0 < size && lead + size < s[j].size
    requires forall i :: 0 <= i < |s| ==> s[i].size > 0
    ensures var t := Carve(s, j, LeadPart(s[j], lead));
            var k := j + |LeadPart(s[j], lead)|;
            && k <= |t| && Between(t, k, k, s[j].addr + lead + size)
            && With(t, k, TrailPart(s[j], lead, size)[0]) == Carve(s, j, LeadPart(s[j], lead) + TrailPart(s[j], lead, size))
  {
    CarveShape(s, j, LeadPart(s[j], lead));
    var t := Carve(s, j, LeadPart(s[j], lead));
    var k := j + |LeadPart(s[j], lead)|;
    forall i | 0 <= i < k ensures t[i].addr < s[j].addr + lead + size {
      if i < j {
        assert s[i].End() <= s[j].addr;
      }
    }
    forall i | k <= i < |t| ensures s[j].addr + lead + size < t[i].addr {
      assert t[i] == s[i - |LeadPart(s[j], lead)| + 1];
    }
  }

  lemma TrailPlan(s: seq<Extent>, j: nat, e: Extent, lead: nat, size: nat, k: nat)
    requires j < |s| && s[j] == e && Sorted(s) && 0 < size && lead + size < e.size
    requires forall i :: 0 <= i < |s| ==> s[i].size > 0
    requires k == if lead != 0 then j + 1 else j
    ensures var t := Carve(s, j, LeadPart(e, lead));
            && k <= |t| && Between(t, k, k, e.addr + lead + size)
            && With(t, k, Extent(e.addr + lead + size, e.size - lead - size, e.zeroed, e.committed))
               == Carve(s, j, LeadPart(e, lead) + TrailPart(e, lead, size))
  {
    TrailFits(s, j, lead, size);
    assert TrailPart(e, lead, size)[0] == Extent(e.addr + lead + size, e.size - lead - size, e.zeroed, e.committed);
    assert |LeadPart(e, lead)| == k - j;
  }

  /** The first sufficient extent in size order is the best fit of the address-ordered list. */
  lemma FirstInSizeOrderIsBest(c: Config, s: seq<Extent>, z: seq<Extent>, j: nat, p: nat, want: nat)
    requires AdOrdered(s) && SzadOrdered(c, z)
    requires forall i :: 0 <= i < |s| ==> s[i] in z
    requires j < |s| && p < |z| && s[j] == z[p] && Sufficient(c, z[p], want)
    requires forall i :: 0 <= i < p ==> !Sufficient(c, z[i], want)
    ensures j == BestFit(c, s, want)
  {
    forall i | 0 <= i < |s| && i != j && Sufficient(c, s[i], want) ensures SzadLess(c, s[j], s[i]) {
      var q :| 0 <= q < |z| && z[q] == s[i];
      assert s[i].addr != s[j].addr;
    }
    BestFitIsBest(c, s, want);
    BestFitUnique(c, s, want, j, BestFit(c, s, want));
  }

  lemma NoFit(c: Config, s: seq<Extent>, z: seq<Extent>, want: nat)
    requires AdOrdered(s)
    requires forall i :: 0 <= i < |s| ==> s[i] in z
    requires forall i :: 0 <= i < |z| ==> !Sufficient(c, z[i], want)
    ensures BestFit(c, s, want) == |s|
  {
    BestFitIsBest(c, s, want);
  }

  lemma BestFitUnique(c: Config, s: seq<Extent>, want: nat, j: nat, k: nat)
    requires IsBestFit(c, s, want, j) && IsBestFit(c, s, want, k)
    ensures j == k
  {
  }

  /** The range lies between the extents of the list. */
  ghost predicate Separate(s: seq<Extent>, addr: nat, size: nat) {
    && Sorted(s) && size > 0 && Outside(s, addr, addr + size)
    && forall i :: 0 <= i < |s| ==> s[i].size > 0
  }

  /** `addr` lies after the first `lo` extents and before those from `hi` on. */
  ghost predicate Between(s: seq<Extent>, lo: nat, hi: nat, addr: nat) {
    && (forall i :: 0 <= i < lo && i < |s| ==> s[i].addr < addr)
    && (forall i :: hi <= i < |s| ==> addr < s[i].addr)
  }

  lemma SeparateBetween(s: seq<Extent>, e: Extent)
    requires Separate(s, e.addr, e.size)
    ensures var k := LowerBound(s, e.End());
            Between(s, k, k, e.addr)
  {
    LowerBoundSplits(s, e);
  }

  lemma RemoveAdOrdered(s: seq<Extent>, k: nat)
    requires AdOrdered(s) && k < |s|
    ensures AdOrdered(Without(s, k))
  {
    var t := Without(s, k);
    forall i, j | 0 <= i < j < |t| ensures t[i].addr < t[j].addr {
      assert t[i] == s[if i < k then i else i + 1];
      assert t[j] == s[if j < k then j else j + 1];
    }
  }

  lemma UpdateAdOrdered(s: seq<Extent>, k: nat, e: Extent)
    requires AdOrdered(s) && k < |s| && Between(s, k, k + 1, e.addr)
    ensures AdOrdered(s[k := e])
  {
  }

  lemma InsertAdOrdered(s: seq<Extent>, k: nat, e: Extent)
    requires AdOrdered(s) && k <= |s| && Between(s, k, k, e.addr)
    ensures AdOrdered(With(s, k, e))
  {
  }

  /** What the two steps of `chunk_record` rely on: the place of the range, before and after the forward step. */
  ghost predicate Plan(s: seq<Extent>, k: nat, e: Extent, env: RecordEnv) {
    && k <= |s| && Between(s, k, k, e.addr)
    && k < |ForwardStep(s, k, e, env)| && ForwardStep(s, k, e, env)[k].addr == e.addr
  }

  lemma RecordPlan(c: Config, cache: bool, s: seq<Extent>, e: Extent, env: RecordEnv)
    requires WellFormed(c, cache, s) && Recordable(c, cache, s, e)
    ensures Plan(s, LowerBound(s, e.End()), e, env)
    ensures WellFormed(c, cache, Record(s, e, env))
  {
    SeparateBetween(s, e);
    ForwardShape(s, LowerBound(s, e.End()), e, env);
    RecordConserves(c, cache, s, e, env);
  }

  lemma LessFromPlace(c: Config, s: seq<Extent>, k: nat, e: Extent, y: nat)
    requires SzadOrdered(c, s) && k <= y < |s| && s[k].addr != e.addr && !SzadLess(c, s[k], e)
    ensures SzadLess(c, e, s[y])
  {
    SzadConnected(c, s[k], e);
    if k < y {
      assert SzadLess(c, s[k], s[y]);
    }
  }

  /** Inserting at the place that comparison finds keeps the order. */
  lemma InsertOrdered(c: Config, s: seq<Extent>, k: nat, e: Extent)
    requires SzadOrdered(c, s) && k <= |s|
    requires forall i :: 0 <= i < |s| ==> s[i].addr != e.addr
    requires forall i :: 0 <= i < k ==> SzadLess(c, s[i], e)
    requires k < |s| ==> !SzadLess(c, s[k], e)
    ensures SzadOrdered(c, With(s, k, e))
  {
    var t := With(s, k, e);
    forall i, j | 0 <= i < j < |t| ensures SzadLess(c, t[i], t[j]) {
      WithAt(s, k, e, i);
      WithAt(s, k, e, j);
      if i == k {
        LessFromPlace(c, s, k, e, j - 1);
      } else if j != k {
        OrderedPair(c, s, if i < k then i else i - 1, if j < k then j else j - 1);
      }
    }
  }

  lemma OrderedPair(c: Config, s: seq<Extent>, x: nat, y: nat)
    requires SzadOrdered(c, s) && x < y < |s|
    ensures SzadLess(c, s[x], s[y])
  {
  }

  lemma WithAt<T>(s: seq<T>, k: nat, x: T, i: nat)
    requires k <= |s| && i <= |s|
    ensures With(s, k, x)[i] == if i < k then s[i] else if i == k then x else s[i - 1]
  {
  }

  /** Walking down by key arrives at a member: the order is strict. */
  lemma PlaceOfMember(c: Config, s: seq<Extent>, k: nat, e: Extent)
    requires SzadOrdered(c, s) && e in s && k <= |s|
    requires forall i :: 0 <= i < k ==> SzadLess(c, s[i], e)
    requires k < |s| ==> !SzadLess(c, s[k], e)
    ensures k < |s| && s[k] == e
    ensures forall i :: 0 <= i < |s| && i != k ==> s[i] != e
  {
    var p :| 0 <= p < |s| && s[p] == e;
    assert p == k;
  }

  lemma SzadConnected(c: Config, a: Extent, b: Extent)
    requires a.addr != b.addr
    ensures SzadLess(c, a, b) || SzadLess(c, b, a)
  {
  }

  lemma RemoveOrdered(c: Config, s: seq<Extent>, k: nat)
    requires SzadOrdered(c, s) && k < |s|
    ensures SzadOrdered(c, Without(s, k))
  {
    var t := Without(s, k);
    forall i, j | 0 <= i < j < |t| ensures SzadLess(c, t[i], t[j]) {
      assert t[i] == s[if i < k then i else i + 1];
      assert t[j] == s[if j < k then j else j + 1];
    }
  }

  lemma LowerBoundIs(s: seq<Extent>, key: nat, k: nat)
    requires k <= |s|
    requires forall i :: 0 <= i < k ==> s[i].addr < key
    requires k < |s| ==> key <= s[k].addr
    ensures k == LowerBound(s, key)
  {
  }

  lemma InsertMembers<T>(s: seq<T>, p: nat, x: T)
    requires p <= |s|
    ensures forall n :: n in With(s, p, x) <==> n == x || n in s
  {
    assert s == s[..p] + s[p..];
  }

  lemma RemoveMembers<T>(s: seq<T>, p: nat)
    requires p < |s| && forall i, j :: 0 <= i < j < |s| ==> s[i] != s[j]
    ensures forall n :: n in Without(s, p) <==> n in s && n != s[p]
  {
    assert s == s[..p] + [s[p]] + s[p + 1..];
  }
}
