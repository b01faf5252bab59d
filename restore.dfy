/**
 * FileAPI.restore(id, path): after a local removal is undone, the object's
 * local mirrors are brought back in line with the remote parents that still
 * file it. Each mirror whose parent is such a parent is restored there and
 * the parent leaves the list; any other mirror is removed unless ignored;
 * the parents left over get the object restored under every one of their
 * local nodes.
 */
module Restore {
  import opened Wrappers
  import opened Remote
  import opened LocalStore
  import opened LocalDrive

  /** The store only gained nodes and refreshed fields: every node keeps its place, kind and flags. */
  ghost predicate Grown(s0: Store, s: Store) {
    && s0.Keys <= s.Keys
    && forall h :: h in s0 ==> && s[h].path == s0[h].path && s[h].parent == s0[h].parent
                               && s[h].kind == s0[h].kind && s[h].removed == s0[h].removed
                               && s[h].ignored == s0[h].ignored
  }

  /** Two versions of a node at the same place, of the same kind and with the same flags. */
  ghost predicate SameShape(a: LocalNode, b: LocalNode) {
    a.path == b.path && a.parent == b.parent && a.kind == b.kind && a.removed == b.removed && a.ignored == b.ignored
  }

  /** Writing one node that keeps its shape grows the store. */
  lemma {:induction false} GrownPut(s0: Store, h: NodeRef, v: LocalNode)
    requires h in s0 ==> SameShape(s0[h], v)
    ensures Grown(s0, s0[h := v])
  {
    var s := s0[h := v];
    forall g | g in s0
      ensures s[g].path == s0[g].path && s[g].parent == s0[g].parent && s[g].kind == s0[g].kind
              && s[g].removed == s0[g].removed && s[g].ignored == s0[g].ignored
    {
      if g == h {
        assert SameShape(s0[h], v);
      }
    }
  }

  lemma {:induction false} GrownTrans(s0: Store, s1: Store, s2: Store)
    requires Grown(s0, s1) && Grown(s1, s2)
    ensures Grown(s0, s2)
  {
    forall h | h in s0
      ensures s2[h].path == s0[h].path && s2[h].parent == s0[h].parent && s2[h].kind == s0[h].kind
              && s2[h].removed == s0[h].removed && s2[h].ignored == s0[h].ignored
    {
      assert h in s1;
    }
  }

  /** As Grown, except that nodes may have been removed since. */
  ghost predicate Kept(s0: Store, s: Store) {
    && s0.Keys <= s.Keys
    && forall h :: h in s0 ==> && s[h].path == s0[h].path && s[h].parent == s0[h].parent
                               && s[h].ignored == s0[h].ignored && (s0[h].removed ==> s[h].removed)
  }

  lemma {:induction false} KeptTrans(s0: Store, s1: Store, s2: Store)
    requires Kept(s0, s1) && Kept(s1, s2)
    ensures Kept(s0, s2)
  {
    forall h | h in s0
      ensures && s2[h].path == s0[h].path && s2[h].parent == s0[h].parent
              && s2[h].ignored == s0[h].ignored && (s0[h].removed ==> s2[h].removed)
    {
      assert h in s1;
    }
  }

  /**
   * The private restore(obj, parent): the object's node is opened or created
   * under `parent` and refreshed by updateItem; a folder node that is new
   * gets every listed child restored below it, recursively.
   */
  method RestoreTree(d: Drive, l: Listing, parent: NodeRef) returns (r: Result<LocalFile>)
    requires d.Valid()
    modifies d`store, d`nextRef
    ensures d.Valid() && Grown(old(d.store), d.store)
    ensures !Live(old(d.store), parent) ==> r == Err(StaleNode) && d.store == old(d.store)
    ensures r.Err? ==> r.error == StaleNode
    ensures r.Ok? ==> && r.value.id == l.item.id && r.value.isFolder == (l.item.kind == Folder)
                      && ChildAt(d.store, parent, l.item.name, r.value.node)
    ensures r.Ok? && r.value.isFolder && r.value.node !in d.persisted ==>
              forall c :: c in l.children ==> exists h :: ChildAt(d.store, r.value.node, c.item.name, h)
    decreases l, 1
  {
    ghost var s0 := d.store;
    r := d.UpdateItem(l.item, parent, None);
    if r.Err? {
      return;
    }
    var node := r.value.node;
    assert node in s0 ==> SameShape(s0[node], d.store[node]);
    assert d.store == s0[node := d.store[node]];
    GrownPut(s0, node, d.store[node]);
    assert ChildAt(d.store, parent, l.item.name, node);
    if node !in d.persisted && r.value.isFolder {
      ghost var s1 := d.store;
      var o := RestoreChildren(d, l, node);
      GrownTrans(s0, s1, d.store);
      if o.Fail? {
        return Err(o.error);
      }
    }
  }

  /** The loop of the private restore over the listed children of a new folder node. */
  method RestoreChildren(d: Drive, l: Listing, node: NodeRef) returns (r: Outcome)
    requires d.Valid()
    modifies d`store, d`nextRef
    ensures d.Valid() && Grown(old(d.store), d.store)
    ensures r.Fail? ==> r.error == StaleNode
    ensures r.Pass? ==> forall c :: c in l.children ==> exists h :: ChildAt(d.store, node, c.item.name, h)
    decreases l, 0
  {
    ghost var kids: seq<NodeRef> := [];
    var i := 0;
    while i < |l.children|
      invariant i <= |l.children| && |kids| == i
      invariant d.Valid() && Grown(old(d.store), d.store)
      invariant forall j :: 0 <= j < i ==> ChildAt(d.store, node, l.children[j].item.name, kids[j])
    {
      ghost var s1 := d.store;
      var c := RestoreTree(d, l.children[i], node);
      GrownTrans(old(d.store), s1, d.store);
      if c.Err? {
        return Fail(c.error);
      }
      kids := kids + [c.value.node];
      i := i + 1;
    }
    forall c | c in l.children
      ensures exists h :: ChildAt(d.store, node, c.item.name, h)
    {
      var j :| 0 <= j < |l.children| && l.children[j] == c;
      assert ChildAt(d.store, node, c.item.name, kids[j]);
    }
    r := Pass;
  }

  /** The list after the iterator removed every entry equal to `x`, the others in order. */
  function Without(s: seq<Id>, x: Id): (r: seq<Id>)
    ensures forall y :: y in r <==> y in s && y != x
    ensures |r| <= |s|
  {
    if |s| == 0 then []
    else
      var rest := Without(s[..|s| - 1], x);
      assert forall y :: y in s <==> y in s[..|s| - 1] || y == s[|s| - 1];
      if s[|s| - 1] == x then rest else rest + [s[|s| - 1]]
  }

  /**
   * The inner loop of restore for one mirror whose parent is `parent`, of id
   * `pid`: each remote parent of that id has the object restored under
   * `parent` and leaves the list.
   */
  method ClaimParent(d: Drive, l: Listing, parent: NodeRef, pid: Id, remaining: seq<Id>)
    returns (r: Result<Option<LocalFile>>, rest: seq<Id>)
    requires d.Valid()
    modifies d`store, d`nextRef
    ensures d.Valid() && Grown(old(d.store), d.store)
    ensures r.Err? ==> r.error == StaleNode
    ensures r.Ok? ==> rest == Without(remaining, pid) && (r.value.Some? <==> pid in remaining)
    ensures r.Ok? && r.value.Some? ==>
              r.value.value.id == l.item.id && ChildAt(d.store, parent, l.item.name, r.value.value.node)
  {
    var restored: Option<LocalFile> := None;
    rest := [];
    var i := 0;
    while i < |remaining|
      invariant i <= |remaining|
      invariant d.Valid() && Grown(old(d.store), d.store)
      invariant rest == Without(remaining[..i], pid)
      invariant restored.Some? <==> pid in remaining[..i]
      invariant restored.Some? ==> restored.value.id == l.item.id && ChildAt(d.store, parent, l.item.name, restored.value.node)
    {
      assert remaining[..i + 1] == remaining[..i] + [remaining[i]];
      if remaining[i] == pid {
        ghost var s1 := d.store;
        var t := RestoreTree(d, l, parent);
        GrownTrans(old(d.store), s1, d.store);
        if t.Err? {
          return Err(t.error), rest;
        }
        restored := Some(t.value);
      } else {
        rest := rest + [remaining[i]];
      }
      i := i + 1;
    }
    assert remaining[..i] == remaining;
    r := Ok(restored);
  }

  /**
   * What the first loop of restore did with a mirror: restored under its
   * parent, removed, or spared as ignored. `parentId` is the id its parent
   * had when the loop reached it.
   */
  datatype Fate = Refiled(parentId: Id) | Dropped(parentId: Id) | Spared(parentId: Id)

  /**
   * One turn of the first loop of restore, for the mirror `n`: its parent's
   * id claims the matching remote parents; a mirror that claimed none is
   * removed unless it is ignored.
   */
  method VisitNode(d: Drive, l: Listing, n: NodeRef, remaining: seq<Id>)
    returns (r: Result<Option<LocalFile>>, fate: Fate, rest: seq<Id>, ghost mid: Store)
    requires d.Valid() && n in d.store
    modifies d`store, d`nextRef
    ensures d.Valid() && Kept(old(d.store), d.store)
    ensures r.Ok? ==> && Grown(old(d.store), mid)
                      && d.store == (if fate.Dropped? then RemoveSubtree(mid, old(d.store)[n].path) else mid)
    ensures r.Err? ==> r.error == StaleNode
    ensures r.Ok? ==> && Live(old(d.store), n) && old(d.store)[n].parent in old(d.store)
                      && fate.parentId == old(d.store)[old(d.store)[n].parent].id
    ensures r.Ok? ==> rest == Without(remaining, fate.parentId) && (fate.Refiled? <==> fate.parentId in remaining)
    ensures r.Ok? && fate.Dropped? ==> !old(d.store)[n].ignored && !Live(d.store, n)
    ensures r.Ok? && fate.Spared? ==> old(d.store)[n].ignored
    ensures r.Ok? ==> (r.value.Some? <==> fate.Refiled?)
    ensures r.Ok? && r.value.Some? ==>
              r.value.value.id == l.item.id && ChildAt(d.store, old(d.store)[n].parent, l.item.name, r.value.value.node)
  {
    fate, rest, mid := Spared(""), remaining, d.store;
    if !Live(d.store, n) || !Live(d.store, d.store[n].parent) {
      return Err(StaleNode), fate, rest, mid;
    }
    var parent := d.store[n].parent;
    var pid := d.store[parent].id;
    r, rest := ClaimParent(d, l, parent, pid, remaining);
    mid := d.store;
    if r.Err? {
      return;
    }
    if r.value.Some? {
      fate := Refiled(pid);
    } else if d.store[n].ignored {
      fate := Spared(pid);
    } else {
      var removed := d.RemoveNode(n);
      fate := Dropped(pid);
    }
  }

  /** The remote parents left after the mirrors with the given fates had their turn. */
  function Remaining(parents: seq<Id>, fates: seq<Fate>): seq<Id> {
    if |fates| == 0 then parents
    else Without(Remaining(parents, fates[..|fates| - 1]), fates[|fates| - 1].parentId)
  }

  /** A parent is left exactly when no earlier mirror's parent had its id. */
  lemma {:induction false} RemainingIff(parents: seq<Id>, fates: seq<Fate>, x: Id)
    ensures x in Remaining(parents, fates) <==> x in parents && forall j :: 0 <= j < |fates| ==> fates[j].parentId != x
  {
    if |fates| > 0 {
      var init := fates[..|fates| - 1];
      RemainingIff(parents, init, x);
      assert forall j :: 0 <= j < |init| ==> init[j] == fates[j];
    }
  }

  /** Each mirror was re-filed exactly when its parent's id was still left when its turn came. */
  ghost predicate ClaimedInTurn(parents: seq<Id>, fates: seq<Fate>) {
    forall i :: 0 <= i < |fates| ==> (fates[i].Refiled? <==> fates[i].parentId in Remaining(parents, fates[..i]))
  }

  /** The first loop's turn keeps ClaimedInTurn. */
  lemma {:induction false} ClaimedExtend(parents: seq<Id>, fates: seq<Fate>, fate: Fate)
    requires ClaimedInTurn(parents, fates)
    requires fate.Refiled? <==> fate.parentId in Remaining(parents, fates)
    ensures ClaimedInTurn(parents, fates + [fate])
  {
    var all := fates + [fate];
    forall i | 0 <= i < |all|
      ensures all[i].Refiled? <==> all[i].parentId in Remaining(parents, all[..i])
    {
      assert all[..i] == fates[..i] by {
        if i < |fates| {
          assert all[..i] == fates[..i];
        } else {
          assert all[..i] == fates;
        }
      }
    }
  }

  /**
   * ClaimedInTurn in plain words: a mirror is re-filed exactly when its
   * parent's id is a remote parent and no earlier mirror's parent had it.
   */
  lemma {:induction false} ClaimedFirst(parents: seq<Id>, fates: seq<Fate>)
    requires ClaimedInTurn(parents, fates)
    ensures forall k :: 0 <= k < |fates| ==>
              (fates[k].Refiled? <==> (&& fates[k].parentId in parents
                                       && forall j :: 0 <= j < k ==> fates[j].parentId != fates[k].parentId))
  {
    forall k | 0 <= k < |fates|
      ensures fates[k].Refiled? <==> (&& fates[k].parentId in parents
                                      && forall j :: 0 <= j < k ==> fates[j].parentId != fates[k].parentId)
    {
      RemainingIff(parents, fates[..k], fates[k].parentId);
    }
  }

  /** Each node of `parents` holds the live child `kids` names at `name`: the object was restored there. */
  ghost predicate Holds(s: Store, parents: seq<NodeRef>, name: string, kids: seq<NodeRef>) {
    |kids| == |parents| && forall k :: 0 <= k < |parents| ==> ChildAt(s, parents[k], name, kids[k])
  }

  /** A grown store keeps every child a node held. */
  lemma {:induction false} GrownHolds(s0: Store, s: Store, parents: seq<NodeRef>, name: string, kids: seq<NodeRef>)
    requires Grown(s0, s) && Holds(s0, parents, name, kids)
    ensures Holds(s, parents, name, kids)
  {
    forall k | 0 <= k < |parents|
      ensures ChildAt(s, parents[k], name, kids[k])
    {
      assert parents[k] in s0 && kids[k] in s0;
    }
  }

  lemma {:induction false} HoldsAppend(s: Store, a: seq<NodeRef>, b: seq<NodeRef>, name: string, ka: seq<NodeRef>, kb: seq<NodeRef>)
    requires Holds(s, a, name, ka) && Holds(s, b, name, kb)
    ensures Holds(s, a + b, name, ka + kb)
  {
    forall k | 0 <= k < |a + b|
      ensures ChildAt(s, (a + b)[k], name, (ka + kb)[k])
    {
      if k < |a| {
        assert (a + b)[k] == a[k] && (ka + kb)[k] == ka[k];
      } else {
        assert (a + b)[k] == b[k - |a|] && (ka + kb)[k] == kb[k - |a|];
      }
    }
  }

  /** A turn of the loop of RestoreAt extends what the earlier turns restored. */
  lemma {:induction false} HoldsStep(s1: Store, s2: Store, hs: seq<NodeRef>, j: nat, name: string, kids: seq<NodeRef>, c: NodeRef)
    requires Grown(s1, s2) && j < |hs| && Holds(s1, hs[..j], name, kids) && ChildAt(s2, hs[j], name, c)
    ensures Holds(s2, hs[..j + 1], name, kids + [c])
  {
    GrownHolds(s1, s2, hs[..j], name, kids);
    HoldsAppend(s2, hs[..j], [hs[j]], name, kids, [c]);
    assert hs[..j + 1] == hs[..j] + [hs[j]];
  }

  /**
   * The turn of the second loop of restore for one remote parent: the object
   * is restored under each of the parent's local nodes `hs`, in order;
   * `kids` are the restored nodes.
   */
  method RestoreAt(d: Drive, l: Listing, hs: seq<NodeRef>) returns (r: Result<Option<LocalFile>>, ghost kids: seq<NodeRef>)
    requires d.Valid()
    modifies d`store, d`nextRef
    ensures d.Valid() && Grown(old(d.store), d.store)
    ensures r.Err? ==> r.error == StaleNode
    ensures r.Ok? ==> (r.value.Some? <==> |hs| > 0)
    ensures r.Ok? ==> Holds(d.store, hs, l.item.name, kids)
    ensures r.Ok? && r.value.Some? ==> r.value.value.id == l.item.id && r.value.value.node == kids[0]
  {
    var first: Option<LocalFile> := None;
    kids := [];
    var j := 0;
    while j < |hs|
      invariant j <= |hs| && |kids| == j
      invariant d.Valid() && Grown(old(d.store), d.store)
      invariant first.Some? <==> j > 0
      invariant first.Some? ==> first.value.id == l.item.id && first.value.node == kids[0]
      invariant Holds(d.store, hs[..j], l.item.name, kids)
    {
      ghost var s1 := d.store;
      var t := RestoreTree(d, l, hs[j]);
      GrownTrans(old(d.store), s1, d.store);
      if t.Err? {
        return Err(t.error), kids;
      }
      HoldsStep(s1, d.store, hs, j, l.item.name, kids, t.value.node);
      if first.None? {
        first := Some(t.value);
      }
      kids := kids + [t.value.node];
      j := j + 1;
    }
    assert hs[..j] == hs;
    r := Ok(first);
  }

  /**
   * The second loop of restore: for each remote parent left, the object is
   * restored under every local node of that id (findNodes at that moment);
   * the first node restored is the result. `under` lists those local nodes
   * and `kids` the nodes restored under them.
   */
  method RestoreUnder(d: Drive, l: Listing, pids: seq<Id>)
    returns (r: Result<Option<LocalFile>>, ghost under: seq<NodeRef>, ghost kids: seq<NodeRef>)
    requires d.Valid()
    modifies d`store, d`nextRef
    ensures d.Valid() && Grown(old(d.store), d.store)
    ensures r.Err? ==> r.error == StaleNode
    ensures r.Ok? ==> (r.value.Some? <==> |under| > 0)
    ensures r.Ok? && r.value.Some? ==> r.value.value.id == l.item.id
    ensures r.Ok? ==> Holds(d.store, under, l.item.name, kids)
  {
    var first: Option<LocalFile> := None;
    under, kids := [], [];
    var i := 0;
    while i < |pids|
      invariant d.Valid() && Grown(old(d.store), d.store)
      invariant first.Some? <==> |under| > 0
      invariant first.Some? ==> first.value.id == l.item.id
      invariant Holds(d.store, under, l.item.name, kids)
    {
      var hs := Members(d.store, Handles(d.nextRef), pids[i]);
      ghost var s1 := d.store;
      var t;
      ghost var more;
      t, more := RestoreAt(d, l, hs);
      GrownTrans(old(d.store), s1, d.store);
      if t.Err? {
        return Err(t.error), under, kids;
      }
      GrownHolds(s1, d.store, under, l.item.name, kids);
      HoldsAppend(d.store, under, hs, l.item.name, kids, more);
      if first.None? {
        first := t.value;
      }
      under, kids := under + hs, kids + more;
      i := i + 1;
    }
    r := Ok(first);
  }

  /** What the first loop left of each visited mirror: a dropped one is gone, a spared one is ignored. */
  ghost predicate Settled(s0: Store, s: Store, nodes: seq<NodeRef>, fates: seq<Fate>) {
    && |fates| <= |nodes|
    && forall i :: 0 <= i < |fates| ==> && nodes[i] in s0
                                        && (fates[i].Dropped? ==> !s0[nodes[i]].ignored && !Live(s, nodes[i]))
                                        && (fates[i].Spared? ==> s0[nodes[i]].ignored)
  }

  /** The first loop's turn keeps what earlier turns settled and settles its own mirror. */
  lemma {:induction false} SettledExtend(s0: Store, s1: Store, s2: Store, nodes: seq<NodeRef>, fates: seq<Fate>, fate: Fate)
    requires Settled(s0, s1, nodes, fates) && Kept(s0, s1) && Kept(s1, s2)
    requires |fates| < |nodes| && nodes[|fates|] in s0
    requires fate.Dropped? ==> !s1[nodes[|fates|]].ignored && !Live(s2, nodes[|fates|])
    requires fate.Spared? ==> s1[nodes[|fates|]].ignored
    ensures Settled(s0, s2, nodes, fates + [fate]) && Kept(s0, s2)
  {
    var all := fates + [fate];
    forall i | 0 <= i < |all|
      ensures && nodes[i] in s0
              && (all[i].Dropped? ==> !s0[nodes[i]].ignored && !Live(s2, nodes[i]))
              && (all[i].Spared? ==> s0[nodes[i]].ignored)
    {
      if i < |fates| {
        assert all[i] == fates[i];
        if fates[i].Dropped? {
          assert nodes[i] in s1;
        }
      }
    }
    forall h | h in s0
      ensures && s2[h].path == s0[h].path && s2[h].parent == s0[h].parent
              && s2[h].ignored == s0[h].ignored && (s0[h].removed ==> s2[h].removed)
    {
      assert h in s1;
    }
  }

  /** The node `h` sits under `parent` at the path a child named `name` takes, removed or not. */
  ghost predicate Filed(s: Store, parent: NodeRef, name: string, h: NodeRef) {
    parent in s && h in s && s[h].parent == parent && s[h].path == ChildPath(s[parent].path, name)
  }

  /** The paths of the mirrors the first loop removed, in turn order. */
  ghost function DroppedPaths(s0: Store, nodes: seq<NodeRef>, fates: seq<Fate>): seq<Path> {
    if |fates| == 0 then []
    else
      var i := |fates| - 1;
      var rest := DroppedPaths(s0, nodes, fates[..i]);
      if fates[i].Dropped? && i < |nodes| && nodes[i] in s0 then rest + [s0[nodes[i]].path] else rest
  }

  /**
   * What the first loop restored: each re-filed mirror's parent holds the
   * node `kids` names at the object's name, and that node is still live
   * unless it lies below a mirror the loop removed.
   */
  ghost predicate Restored(s0: Store, s: Store, nodes: seq<NodeRef>, fates: seq<Fate>, name: string,
                           kids: seq<NodeRef>, drops: seq<Path>) {
    && |kids| == |fates| <= |nodes|
    && forall k :: 0 <= k < |fates| && fates[k].Refiled? ==>
         && nodes[k] in s0
         && Filed(s, s0[nodes[k]].parent, name, kids[k])
         && (Live(s, kids[k]) || BelowAny(s[kids[k]].path, drops))
  }

  lemma {:induction false} BelowAnyAppend(p: Path, roots: seq<Path>, q: Path)
    ensures BelowAny(p, roots + [q]) <==> BelowAny(p, roots) || InSubtree(p, q)
  {
    assert (roots + [q])[..|roots|] == roots;
  }

  /** Growing the store keeps what was restored. */
  lemma {:induction false} RestoredGrown(s0: Store, s1: Store, s2: Store, nodes: seq<NodeRef>, fates: seq<Fate>,
                                         name: string, kids: seq<NodeRef>, drops: seq<Path>)
    requires Restored(s0, s1, nodes, fates, name, kids, drops) && Grown(s1, s2)
    ensures Restored(s0, s2, nodes, fates, name, kids, drops)
  {
    forall k | 0 <= k < |fates| && fates[k].Refiled?
      ensures Filed(s2, s0[nodes[k]].parent, name, kids[k]) && (Live(s2, kids[k]) || BelowAny(s2[kids[k]].path, drops))
    {
      assert s0[nodes[k]].parent in s1 && kids[k] in s1;
    }
  }

  /** A removed subtree keeps what was restored, adding its root to the removed paths. */
  lemma {:induction false} RestoredRemove(s0: Store, s1: Store, nodes: seq<NodeRef>, fates: seq<Fate>,
                                          name: string, kids: seq<NodeRef>, drops: seq<Path>, q: Path)
    requires Restored(s0, s1, nodes, fates, name, kids, drops)
    ensures Restored(s0, RemoveSubtree(s1, q), nodes, fates, name, kids, drops + [q])
  {
    var s2 := RemoveSubtree(s1, q);
    forall k | 0 <= k < |fates| && fates[k].Refiled?
      ensures Filed(s2, s0[nodes[k]].parent, name, kids[k])
              && (Live(s2, kids[k]) || BelowAny(s2[kids[k]].path, drops + [q]))
    {
      BelowAnyAppend(s1[kids[k]].path, drops, q);
    }
  }

  /** The first loop's turn for mirror `nodes[|fates|]` keeps Restored and adds its own restoration. */
  lemma {:induction false} RestoredExtend(s0: Store, s1: Store, mid: Store, s2: Store, nodes: seq<NodeRef>,
                                          fates: seq<Fate>, fate: Fate, name: string, kids: seq<NodeRef>, kid: NodeRef)
    requires Restored(s0, s1, nodes, fates, name, kids, DroppedPaths(s0, nodes, fates))
    requires |fates| < |nodes| && nodes[|fates|] in s0 && Grown(s1, mid)
    requires s2 == (if fate.Dropped? then RemoveSubtree(mid, s0[nodes[|fates|]].path) else mid)
    requires fate.Refiled? ==> ChildAt(mid, s0[nodes[|fates|]].parent, name, kid)
    ensures Restored(s0, s2, nodes, fates + [fate], name, kids + [kid], DroppedPaths(s0, nodes, fates + [fate]))
  {
    var all := fates + [fate];
    var drops := DroppedPaths(s0, nodes, fates);
    assert all[..|fates|] == fates;
    RestoredGrown(s0, s1, mid, nodes, fates, name, kids, drops);
    var after := DroppedPaths(s0, nodes, all);
    if fate.Dropped? {
      RestoredRemove(s0, mid, nodes, fates, name, kids, drops, s0[nodes[|fates|]].path);
    }
    assert Restored(s0, s2, nodes, fates, name, kids, after);
    forall k | 0 <= k < |all| && all[k].Refiled?
      ensures && Filed(s2, s0[nodes[k]].parent, name, (kids + [kid])[k])
              && (Live(s2, (kids + [kid])[k]) || BelowAny(s2[(kids + [kid])[k]].path, after))
    {
      if k < |fates| {
        assert all[k] == fates[k] && (kids + [kid])[k] == kids[k];
      }
    }
  }

  /**
   * One turn of the first loop of restore, for the mirror `nodes[k]`:
   * VisitNode, with what the earlier turns settled and restored (from the
   * store `s0` the loop started with) carried over to the turn after.
   */
  method VisitTurn(d: Drive, l: Listing, nodes: seq<NodeRef>, k: nat, remaining: seq<Id>, ghost s0: Store,
                   ghost fates: seq<Fate>, ghost kids: seq<NodeRef>)
    returns (r: Result<Option<LocalFile>>, fate: Fate, rest: seq<Id>, ghost kid: NodeRef)
    requires d.Valid() && k == |fates| < |nodes| && nodes[k] in s0 && Kept(s0, d.store)
    requires remaining == Remaining(l.item.parents, fates) && ClaimedInTurn(l.item.parents, fates)
    requires Settled(s0, d.store, nodes, fates)
    requires Restored(s0, d.store, nodes, fates, l.item.name, kids, DroppedPaths(s0, nodes, fates))
    modifies d`store, d`nextRef
    ensures d.Valid() && Kept(s0, d.store)
    ensures r.Err? ==> r.error == StaleNode
    ensures r.Ok? ==> rest == Remaining(l.item.parents, fates + [fate]) && ClaimedInTurn(l.item.parents, fates + [fate])
    ensures r.Ok? ==> Settled(s0, d.store, nodes, fates + [fate])
    ensures r.Ok? ==> Restored(s0, d.store, nodes, fates + [fate], l.item.name, kids + [kid],
                               DroppedPaths(s0, nodes, fates + [fate]))
    ensures r.Ok? && r.value.Some? ==> r.value.value.id == l.item.id && r.value.value.node == kid
  {
    var n := nodes[k];
    ghost var s1 := d.store;
    ghost var mid;
    r, fate, rest, mid := VisitNode(d, l, n, remaining);
    kid := n;
    if r.Err? {
      KeptTrans(s0, s1, d.store);
      return;
    }
    SettledExtend(s0, s1, d.store, nodes, fates, fate);
    if r.value.Some? {
      kid := r.value.value.node;
    }
    assert s1[n].path == s0[n].path && s1[n].parent == s0[n].parent;
    RestoredExtend(s0, s1, mid, d.store, nodes, fates, fate, l.item.name, kids, kid);
    ClaimedExtend(l.item.parents, fates, fate);
    assert (fates + [fate])[..|fates|] == fates;
  }

  /**
   * The first loop of restore over the mirrors `nodes`: each is visited in
   * turn with the remote parents not yet claimed; the mirror restored at
   * `path` is the result. A parent is claimed by the first mirror under a
   * node of its id; `kids` are the nodes restored for the re-filed mirrors.
   */
  method VisitMirrors(d: Drive, l: Listing, path: Path, nodes: seq<NodeRef>)
    returns (r: Result<Option<LocalFile>>, fates: seq<Fate>, remaining: seq<Id>, ghost kids: seq<NodeRef>)
    requires d.Valid() && forall k :: 0 <= k < |nodes| ==> nodes[k] in d.store
    modifies d`store, d`nextRef
    ensures d.Valid() && Kept(old(d.store), d.store)
    ensures r.Err? ==> r.error == StaleNode
    ensures r.Ok? ==> |fates| == |nodes| && remaining == Remaining(l.item.parents, fates)
    ensures r.Ok? ==> ClaimedInTurn(l.item.parents, fates)
    ensures r.Ok? ==> Settled(old(d.store), d.store, nodes, fates)
    ensures r.Ok? ==> Restored(old(d.store), d.store, nodes, fates, l.item.name, kids,
                               DroppedPaths(old(d.store), nodes, fates))
    ensures r.Ok? && r.value.Some? ==> r.value.value.id == l.item.id
  {
    fates, remaining, kids := [], l.item.parents, [];
    var result: Option<LocalFile> := None;
    var k := 0;
    while k < |nodes|
      invariant k <= |nodes| && |fates| == k
      invariant d.Valid() && Kept(old(d.store), d.store)
      invariant remaining == Remaining(l.item.parents, fates)
      invariant ClaimedInTurn(l.item.parents, fates)
      invariant Settled(old(d.store), d.store, nodes, fates)
      invariant Restored(old(d.store), d.store, nodes, fates, l.item.name, kids,
                         DroppedPaths(old(d.store), nodes, fates))
      invariant result.Some? ==> result.value.id == l.item.id
    {
      var restored, fate;
      ghost var kid;
      restored, fate, remaining, kid := VisitTurn(d, l, nodes, k, remaining, old(d.store), fates, kids);
      if restored.Err? {
        return Err(restored.error), fates, remaining, kids;
      }
      if restored.value.Some? && path == d.store[nodes[k]].path {
        result := restored.value;
      }
      fates, kids := fates + [fate], kids + [kid];
      k := k + 1;
    }
    r := Ok(result);
  }

  /**
   * restore(id, path). The object is read first (NotFound when the
   * repository has no such id); then the first loop visits the drive's
   * mirrors of the id in the order findNodes gives them, and the second loop
   * the remote parents no mirror claimed. The result is the mirror restored
   * at `path`, or else the first one the second loop restored. `kids` are
   * the nodes the first loop restored for the re-filed mirrors.
   */
  method Restore(d: Drive, repo: Repo, id: Id, path: Path)
    returns (r: Result<Option<LocalFile>>, ghost mirrors: seq<NodeRef>, ghost fates: seq<Fate>,
             ghost kids: seq<NodeRef>)
    requires d.Valid()
    modifies d`store, d`nextRef
    ensures d.Valid() && Kept(old(d.store), d.store)
    ensures mirrors == Members(old(d.store), Handles(old(d.nextRef)), id)
    ensures forall k :: 0 <= k < |mirrors| ==> mirrors[k] in old(d.store)
    ensures id !in repo.objects ==> r == Err(NotFound) && d.store == old(d.store)
    ensures r.Err? ==> r.error == NotFound || r.error == StaleNode
    ensures r.Ok? ==> id in repo.objects && |fates| == |mirrors|
    ensures r.Ok? ==> forall k :: 0 <= k < |fates| ==>
              (fates[k].Refiled? <==> (&& fates[k].parentId in repo.objects[id].item.parents
                                       && forall j :: 0 <= j < k ==> fates[j].parentId != fates[k].parentId))
    ensures r.Ok? ==> forall k :: 0 <= k < |fates| && fates[k].Dropped? ==>
              !old(d.store)[mirrors[k]].ignored && !Live(d.store, mirrors[k])
    ensures r.Ok? ==> forall k :: 0 <= k < |fates| && fates[k].Spared? ==> old(d.store)[mirrors[k]].ignored
    ensures r.Ok? ==> Restored(old(d.store), d.store, mirrors, fates, repo.objects[id].item.name, kids,
                               DroppedPaths(old(d.store), mirrors, fates))
    ensures r.Ok? && r.value.Some? ==> r.value.value.id == repo.objects[id].item.id
  {
    var nodes := Members(d.store, Handles(d.nextRef), id);
    mirrors, fates, kids := nodes, [], [];
    forall k | 0 <= k < |nodes|
      ensures nodes[k] in d.store
    {
      assert nodes[k] in nodes;
    }
    var got := GetObject(repo, id);
    if got.Err? {
      return Err(got.error), mirrors, fates, kids;
    }
    var l := repo.objects[id];
    var result, remaining;
    result, fates, remaining, kids := VisitMirrors(d, l, path, nodes);
    if result.Err? {
      return Err(result.error), mirrors, fates, kids;
    }
    ClaimedFirst(l.item.parents, fates);
    ghost var s1 := d.store;
    var later;
    ghost var under, more;
    later, under, more := RestoreUnder(d, l, remaining);
    if later.Err? {
      return Err(later.error), mirrors, fates, kids;
    }
    RestoredGrown(old(d.store), s1, d.store, mirrors, fates, l.item.name, kids, DroppedPaths(old(d.store), mirrors, fates));
    r := Ok(if result.value.Some? then result.value else later.value);
  }
}
