/**
 * updateFile of the change-log algorithm: a created or updated remote object
 * gets one mirror under every local node of each of its remote parents
 * (reusing, moving, copying or creating nodes), and the mirrors it had under
 * other parents are removed.
 */
module FileUpdate {
  import opened Wrappers
  import opened Remote
  import opened LocalStore
  import opened NodeIndex
  import opened LocalDrive
  import opened Seqs

  /**
   * Where the scan of `l` for a mirror under `fp` stops: the first node that is
   * removed (its getParent() throws) or whose parent is `fp`.
   */
  function FirstUnder(s: Store, l: seq<NodeRef>, fp: NodeRef): (r: Option<nat>)
    requires forall h :: h in l ==> h in s
    ensures r.Some? ==> r.value < |l| && (s[l[r.value]].removed || s[l[r.value]].parent == fp) &&
                        forall j :: 0 <= j < r.value ==> !s[l[j]].removed && s[l[j]].parent != fp
    ensures r.None? ==> forall j :: 0 <= j < |l| ==> !s[l[j]].removed && s[l[j]].parent != fp
  {
    if |l| == 0 then None
    else if s[l[0]].removed || s[l[0]].parent == fp then Some(0)
    else
      var rest := FirstUnder(s, l[1..], fp);
      assert forall j :: 0 < j < |l| ==> l[j] == l[1..][j - 1];
      if rest.Some? then Some(rest.value + 1) else None
  }

  /**
   * The scan of a file's mirrors for one parent node: `stale` when it reaches a
   * removed mirror first (getParent() throws there); otherwise the mirror
   * already under `fp`, and the node a folder would be copied from, which is
   * that mirror or else the last one scanned (the whole list).
   */
  method ScanMirrors(s: Store, l: seq<NodeRef>, fp: NodeRef)
    returns (stale: bool, found: Option<NodeRef>, copy: Option<NodeRef>)
    requires forall h :: h in l ==> h in s
    ensures var m := FirstUnder(s, l, fp);
            && (stale <==> m.Some? && s[l[m.value]].removed)
            && (!stale ==> found == (if m.Some? then Some(l[m.value]) else None))
            && (!stale ==> copy == (if m.Some? then Some(l[m.value]) else if |l| > 0 then Some(l[|l| - 1]) else None))
  {
    stale, found, copy := false, None, None;
    var i := 0;
    while i < |l|
      invariant 0 <= i <= |l|
      invariant forall j :: 0 <= j < i ==> !s[l[j]].removed && s[l[j]].parent != fp
      invariant copy == if i > 0 then Some(l[i - 1]) else None
    {
      copy := Some(l[i]);
      if s[l[i]].removed {
        stale := true;
        return;
      }
      if s[l[i]].parent == fp {
        found := Some(l[i]);
        return;
      }
      i := i + 1;
    }
  }

  /**
   * The node a missing mirror under `fp` becomes: a copy of the folder mirror
   * `copy` when there is one, else the node updateItem opens or creates under
   * `fp`; either way it is refreshed.
   */
  method PlaceMirror(d: Drive, item: RemoteObject, fp: NodeRef, copy: Option<NodeRef>) returns (r: Result<LocalFile>)
    requires d.Valid() && fp in d.store
    requires copy.Some? ==> copy.value in d.store
    modifies d`store, d`nextRef
    ensures d.Valid()
    ensures forall h :: h in old(d.store) ==> h in d.store && d.store[h].parent == old(d.store)[h].parent
    ensures r.Err? ==> r.error == StaleNode
    ensures r.Ok? ==> && r.value.id == item.id && Live(d.store, r.value.node) && d.store[r.value.node].parent == fp
                      && (r.value.node in old(d.store) ==> old(d.store)[r.value.node].parent == fp)
    ensures r.Ok? && copy.Some? ==> r.value.node == old(d.nextRef) && d.store[r.value.node].kind == old(d.store)[copy.value].kind
    ensures KeepsName(old(d.store), d.store, item.name)
  {
    var node: Option<NodeRef> := None;
    if copy.Some? {
      var c := d.CopyFile(copy.value, fp);
      if c.Err? {
        return Err(c.error);
      }
      node := Some(c.value);
    }
    r := d.UpdateItem(item, fp, node);
  }

  /**
   * No mirror is under `fp`: a folder with some mirror `copy` is copied from
   * it under `fp`, anything else is opened or created under `fp`; the node is
   * refreshed, reported changed and appended to the list `ref`.
   */
  method AddMirror(d: Drive, item: RemoteObject, fp: NodeRef, ref: ListRef, copy: Option<NodeRef>)
    returns (r: Result<NodeRef>)
    requires d.Valid() && fp in d.store && ref in d.index.lists
    requires copy.Some? ==> copy.value in d.store
    modifies d`store, d`nextRef, d`index, d`changed
    ensures d.Valid()
    ensures ref in d.index.lists && d.index.keys == old(d.index.keys)
    ensures forall h :: h in old(d.store) ==> h in d.store && d.store[h].parent == old(d.store)[h].parent
    ensures r.Err? ==> r.error == StaleNode && d.index == old(d.index) && d.changed == old(d.changed)
    ensures r.Ok? ==> && Live(d.store, r.value) && d.store[r.value].parent == fp
                      && (r.value in old(d.store) ==> old(d.store)[r.value].parent == fp)
                      && d.index.lists == old(d.index.lists)[ref := old(d.index.lists[ref]) + [r.value]]
                      && |d.changed| == |old(d.changed)| + 1 && d.changed[..|old(d.changed)|] == old(d.changed)
                      && d.changed[|old(d.changed)|].node == r.value && d.changed[|old(d.changed)|].id == item.id
    ensures r.Ok? && copy.Some? ==> r.value == old(d.nextRef) && d.store[r.value].kind == old(d.store)[copy.value].kind
    ensures KeepsName(old(d.store), d.store, item.name)
  {
    var f := PlaceMirror(d, item, fp, copy);
    if f.Err? {
      return Err(f.error);
    }
    d.AddChanged(f.value);
    PrefixOfSnoc(old(d.changed), f.value);
    d.SetList(ref, d.index.lists[ref] + [f.value.node]);
    r := Ok(f.value.node);
  }

  /** The mirror `h` under `fp` has another title: it is moved (renamed) under `fp`, refreshed and reported changed. */
  method RenameMirror(d: Drive, item: RemoteObject, fp: NodeRef, h: NodeRef) returns (r: Result<NodeRef>)
    requires d.Valid() && fp in d.store && h in d.store
    modifies d`store, d`nextRef, d`changed
    ensures d.Valid()
    ensures d.store.Keys == old(d.store).Keys
    ensures forall g :: g in old(d.store) && g != h ==> d.store[g].parent == old(d.store)[g].parent
    ensures r.Err? ==> r.error == StaleNode && d.changed == old(d.changed) && d.store == old(d.store)
    ensures r.Ok? ==> && r.value == h && Live(d.store, h) && d.store[h].parent == fp && d.store[h].title == item.name
                      && |d.changed| == |old(d.changed)| + 1 && d.changed[..|old(d.changed)|] == old(d.changed)
                      && d.changed[|old(d.changed)|].node == h && d.changed[|old(d.changed)|].id == item.id
    ensures KeepsName(old(d.store), d.store, item.name)
  {
    ghost var s0 := d.store;
    var moved := d.MoveFile(h, fp, item.name);
    if moved.Fail? {
      return Err(moved.error);
    }
    MoveKeepsName(s0, h, fp, ChildPath(s0[fp].path, item.name), item.name);
    ghost var s1 := d.store;
    var f := d.UpdateItem(item, fp, Some(h));
    KeepsNameTrans(s0, s1, d.store, item.name);
    MovedOnly(s0, s1, d.store, h);
    d.AddChanged(f.value);
    r := Ok(h);
  }

  /** A move of `h` followed by a write of `h` alone keeps every node and every other node's parent. */
  lemma MovedOnly(s0: Store, s1: Store, s2: Store, h: NodeRef)
    requires s1.Keys == s0.Keys && forall g :: g in s0 && g != h ==> s1[g].parent == s0[g].parent
    requires h in s1 && h in s2 && s2 == s1[h := s2[h]]
    ensures s2.Keys == s0.Keys && forall g :: g in s0 && g != h ==> s2[g].parent == s0[g].parent
  {
  }

  /** The mirror `h` already carries the remote name: it is refreshed, and reported changed when it drifted. */
  method RefreshMirror(d: Drive, item: RemoteObject, fp: NodeRef, h: NodeRef) returns (r: Result<NodeRef>)
    requires d.Valid() && h in d.store && d.store[h].title == item.name
    modifies d`store, d`nextRef, d`changed
    ensures d.Valid()
    ensures d.store.Keys == old(d.store).Keys
    ensures forall g :: g in old(d.store) ==> d.store[g].parent == old(d.store)[g].parent
    ensures r.Err? ==> r.error == StaleNode && d.changed == old(d.changed)
    ensures r.Ok? ==> r.value == h && Live(d.store, h) && d.store[h].title == item.name
    ensures r.Ok? && d.changed != old(d.changed) ==>
              && |d.changed| == |old(d.changed)| + 1 && d.changed[..|old(d.changed)|] == old(d.changed)
              && d.changed[|old(d.changed)|].node == h && d.changed[|old(d.changed)|].id == item.id
    ensures KeepsName(old(d.store), d.store, item.name)
  {
    var f := d.UpdateItem(item, fp, Some(h));
    if f.Err? {
      return Err(f.error);
    }
    if f.value.changed {
      d.AddChanged(f.value);
    }
    r := Ok(h);
  }

  /**
   * The body of updateFile for one parent node `fp` of the file, whose mirror
   * list is `ref`: the mirror under `fp` is renamed when its title differs and
   * refreshed otherwise; without one, a folder is copied from another of its
   * mirrors (when it has one) and the copy refreshed, and anything else is
   * opened or created under `fp`; the new mirror joins the list. Refreshed
   * nodes are reported changed (a refresh that changed nothing is not).
   */
  method SyncMirror(d: Drive, item: RemoteObject, fp: NodeRef, ref: ListRef, isFolder: bool)
    returns (r: Result<NodeRef>)
    requires d.Valid() && fp in d.store && ref in d.index.lists
    modifies d`store, d`nextRef, d`index, d`changed
    ensures d.Valid()
    ensures ref in d.index.lists && d.index.keys == old(d.index.keys)
    ensures d.index.lists == old(d.index.lists)[ref := d.index.lists[ref]]
    ensures forall h :: h in old(d.store) ==> h in d.store && d.store[h].parent == old(d.store)[h].parent
    ensures var l := old(d.index.lists[ref]);
            var m := FirstUnder(old(d.store), l, fp);
            && (r.Err? ==> d.index.lists[ref] == l)
            && (m.Some? && old(d.store)[l[m.value]].removed ==> r.Err? && d.store == old(d.store))
            && (r.Ok? ==> Live(d.store, r.value) && d.store[r.value].parent == fp)
            && (r.Ok? && m.Some? ==> r.value == l[m.value] && d.index.lists[ref] == l &&
                                     d.store[r.value].title == item.name)
            && (r.Ok? && m.None? ==> r.value !in l && d.index.lists[ref] == l + [r.value])
            && (r.Ok? && m.None? && isFolder && |l| > 0 ==>
                  r.value == old(d.nextRef) && d.store[r.value].kind == old(d.store)[l[|l| - 1]].kind)
    ensures r.Err? ==> r.error == StaleNode && d.changed == old(d.changed)
    ensures r.Ok? && d.changed != old(d.changed) ==>
              && |d.changed| == |old(d.changed)| + 1 && d.changed[..|old(d.changed)|] == old(d.changed)
              && d.changed[|old(d.changed)|].node == r.value && d.changed[|old(d.changed)|].id == item.id
    ensures var l := old(d.index.lists[ref]);
            var m := FirstUnder(old(d.store), l, fp);
            r.Ok? && (m.None? || old(d.store)[l[m.value]].title != item.name) ==> d.changed != old(d.changed)
    ensures KeepsName(old(d.store), d.store, item.name)
  {
    var l := d.index.lists[ref];
    var stale, found, copy := ScanMirrors(d.store, l, fp);
    if stale {
      return Err(StaleNode);
    }
    if found.None? {
      assert forall h :: h in l ==> h in old(d.store) && old(d.store)[h].parent != fp;
      r := AddMirror(d, item, fp, ref, if isFolder then copy else None);
    } else if d.store[found.value].title != item.name {
      assert d.store[found.value].parent == fp;
      r := RenameMirror(d, item, fp, found.value);
    } else {
      r := RefreshMirror(d, item, fp, found.value);
    }
  }

  /** The state of updateFile's final walk over the file's list: the paths removed, the nodes kept, and whether a removal failed. */
  datatype Purge = Purge(roots: seq<Path>, kept: seq<NodeRef>, failed: bool, left: seq<NodeRef>)

  /**
   * One node of the walk: a synced node stays; any other leaves the list and
   * is removed with its subtree, which fails when it is gone already; after a
   * failure the rest of the list stays as it was.
   */
  function PurgeStep(s0: Store, w: Purge, en: NodeRef, synced: set<NodeRef>): Purge
    requires en in s0
  {
    if w.failed then w.(left := w.left + [en])
    else if en in synced then w.(kept := w.kept + [en])
    else if Gone(s0, en, w.roots) then w.(failed := true)
    else w.(roots := w.roots + [s0[en].path])
  }

  /** The walk over the first `n` nodes of `l`, from the store `s0` as it stood before it. */
  function PurgeList(s0: Store, l: seq<NodeRef>, synced: set<NodeRef>, n: nat): (w: Purge)
    requires n <= |l| && forall h :: h in l ==> h in s0
    ensures !w.failed ==> w.left == []
  {
    if n == 0 then Purge([], [], false, [])
    else PurgeStep(s0, PurgeList(s0, l, synced, n - 1), l[n - 1], synced)
  }

  /**
   * A walk that did not fail kept exactly the synced nodes and removed the
   * path of every other one; whatever it kept or left is from the list.
   */
  lemma {:induction false} PurgeDecides(s0: Store, l: seq<NodeRef>, synced: set<NodeRef>, n: nat)
    requires n <= |l| && forall h :: h in l ==> h in s0
    ensures var w := PurgeList(s0, l, synced, n);
            && (forall h :: h in w.kept + w.left ==> h in l)
            && (forall h :: h in w.kept ==> h in synced)
            && (!w.failed ==> forall j :: 0 <= j < n ==> (l[j] in w.kept <==> l[j] in synced))
            && (!w.failed ==> forall j :: 0 <= j < n && l[j] !in synced ==> s0[l[j]].path in w.roots)
  {
    PurgeFromList(s0, l, synced, n);
    PurgeSorts(s0, l, synced, n);
  }

  lemma {:induction false} PurgeFromList(s0: Store, l: seq<NodeRef>, synced: set<NodeRef>, n: nat)
    requires n <= |l| && forall h :: h in l ==> h in s0
    ensures var w := PurgeList(s0, l, synced, n);
            && (forall h :: h in w.kept + w.left ==> h in l)
            && (forall h :: h in w.kept ==> h in synced)
  {
    if n > 0 {
      PurgeFromList(s0, l, synced, n - 1);
    }
  }

  lemma {:induction false} PurgeSorts(s0: Store, l: seq<NodeRef>, synced: set<NodeRef>, n: nat)
    requires n <= |l| && forall h :: h in l ==> h in s0
    ensures var w := PurgeList(s0, l, synced, n);
            && (!w.failed ==> forall j :: 0 <= j < n ==> (l[j] in w.kept <==> l[j] in synced))
            && (!w.failed ==> forall j :: 0 <= j < n && l[j] !in synced ==> s0[l[j]].path in w.roots)
  {
    if !PurgeList(s0, l, synced, n).failed {
      forall j | 0 <= j < n
        ensures var w := PurgeList(s0, l, synced, n);
                && (l[j] in w.kept <==> l[j] in synced) && (l[j] !in synced ==> s0[l[j]].path in w.roots)
      {
        PurgeSortsAt(s0, l, synced, n, j);
      }
    }
  }

  lemma {:induction false} PurgeSortsAt(s0: Store, l: seq<NodeRef>, synced: set<NodeRef>, n: nat, j: nat)
    requires j < n <= |l| && forall h :: h in l ==> h in s0
    requires !PurgeList(s0, l, synced, n).failed
    ensures var w := PurgeList(s0, l, synced, n);
            && (l[j] in w.kept <==> l[j] in synced) && (l[j] !in synced ==> s0[l[j]].path in w.roots)
  {
    if j < n - 1 {
      PurgeSortsAt(s0, l, synced, n - 1, j);
    } else {
      PurgeFromList(s0, l, synced, n - 1);
    }
  }

  /** Once a removal fails, the walk of the whole list keeps the rest of it after the failed node. */
  lemma {:induction false} PurgeStops(s0: Store, l: seq<NodeRef>, synced: set<NodeRef>, i: nat, n: nat,
                                      roots: seq<Path>, kept: seq<NodeRef>)
    requires i < n <= |l| && forall h :: h in l ==> h in s0
    requires PurgeList(s0, l, synced, i) == Purge(roots, kept, false, [])
    requires l[i] !in synced && Gone(s0, l[i], roots)
    ensures PurgeList(s0, l, synced, n) == Purge(roots, kept, true, l[i + 1..n])
  {
    if n > i + 1 {
      PurgeStops(s0, l, synced, i, n - 1, roots, kept);
      assert l[i + 1..n] == l[i + 1..n - 1] + [l[n - 1]];
    }
  }

  /** n.remove() followed by addRemoved(n.getPath()): the node goes with its subtree and its path is recorded. */
  method RemoveRecorded(d: Drive, n: NodeRef) returns (r: Outcome)
    requires d.Valid() && n in d.store
    modifies d`store, d`removedPaths
    ensures d.Valid()
    ensures r.Pass? <==> Live(old(d.store), n)
    ensures r.Pass? ==> && d.store == RemoveSubtree(old(d.store), old(d.store)[n].path)
                        && d.removedPaths == old(d.removedPaths) + [old(d.store)[n].path]
    ensures r.Fail? ==> r.error == StaleNode && d.store == old(d.store) && d.removedPaths == old(d.removedPaths)
  {
    var path := d.store[n].path;
    r := d.RemoveNode(n);
    if r.Pass? {
      d.AddRemoved(path);
    }
  }

  /** The state of the drive once the final walk of updateFile has removed `roots`. */
  ghost predicate Purged(d: Drive, s0: Store, removed0: seq<Path>, roots: seq<Path>)
    reads d
  {
    d.store == RemoveRounds(s0, roots) && d.removedPaths == removed0 + roots
  }

  /** The removal of node `n` by the walk, once it has removed `roots`: it fails when `n` is gone already. */
  method RemoveRound(d: Drive, n: NodeRef, ghost s0: Store, ghost removed0: seq<Path>, ghost roots: seq<Path>)
    returns (stale: bool, ghost roots': seq<Path>)
    requires d.Valid() && n in s0 && Purged(d, s0, removed0, roots)
    modifies d`store, d`removedPaths
    ensures d.Valid()
    ensures stale <==> Gone(s0, n, roots)
    ensures roots' == if stale then roots else roots + [s0[n].path]
    ensures Purged(d, s0, removed0, roots')
  {
    RemoveRoundsRemoves(s0, roots, n);
    var path := d.store[n].path;
    var removed := RemoveRecorded(d, n);
    stale := removed.Fail?;
    if stale {
      roots' := roots;
    } else {
      AppendAssoc(removed0, roots, path);
      PrefixOfSnoc(roots, path);
      roots' := roots + [path];
    }
  }

  /** One node of the final walk, from the state the walk reached: the node is kept or removed. */
  method PurgeOne(d: Drive, l: seq<NodeRef>, synced: set<NodeRef>, i: nat, kept: seq<NodeRef>,
                  ghost s0: Store, ghost removed0: seq<Path>, ghost roots: seq<Path>)
    returns (stale: bool, kept': seq<NodeRef>, ghost roots': seq<Path>)
    requires d.Valid() && i < |l| && forall h :: h in l ==> h in s0
    requires PurgeList(s0, l, synced, i) == Purge(roots, kept, false, [])
    requires Purged(d, s0, removed0, roots)
    modifies d`store, d`removedPaths
    ensures d.Valid()
    ensures stale ==> roots' == roots && kept' == kept
    ensures stale ==> PurgeList(s0, l, synced, |l|) == Purge(roots, kept, true, l[i + 1..])
    ensures !stale ==> PurgeList(s0, l, synced, i + 1) == Purge(roots', kept', false, [])
    ensures Purged(d, s0, removed0, roots')
  {
    var n := l[i];
    if n in synced {
      return false, kept + [n], roots;
    }
    stale, roots' := RemoveRound(d, n, s0, removed0, roots);
    kept' := kept;
    if stale {
      PurgeStops(s0, l, synced, i, |l|, roots, kept);
    }
  }

  /** The walk of the final part of updateFile over `l`, without the write-back of the list. */
  method WalkUnsynced(d: Drive, l: seq<NodeRef>, synced: set<NodeRef>)
    returns (stale: bool, kept: seq<NodeRef>, left: seq<NodeRef>, ghost roots: seq<Path>)
    requires d.Valid() && forall h :: h in l ==> h in d.store
    modifies d`store, d`removedPaths
    ensures d.Valid()
    ensures PurgeList(old(d.store), l, synced, |l|) == Purge(roots, kept, stale, left)
    ensures d.store == RemoveRounds(old(d.store), roots) && d.removedPaths == old(d.removedPaths) + roots
  {
    ghost var s0 := d.store;
    ghost var removed0 := d.removedPaths;
    kept, left, roots := [], [], [];
    var i := 0;
    while i < |l|
      invariant i <= |l|
      invariant PurgeList(s0, l, synced, i) == Purge(roots, kept, false, [])
      invariant Purged(d, s0, removed0, roots)
      invariant d.Valid()
    {
      stale, kept, roots := PurgeOne(d, l, synced, i, kept, s0, removed0, roots);
      if stale {
        return true, kept, l[i + 1..], roots;
      }
      i := i + 1;
    }
    stale := false;
  }

  /**
   * The last part of updateFile: every node of the list `ref` that was not
   * synced leaves the list and is removed, and its path recorded as removed.
   * A node already gone makes the removal fail; the list then keeps the nodes
   * not yet walked.
   */
  method PurgeUnsynced(d: Drive, ref: ListRef, synced: set<NodeRef>) returns (r: Outcome)
    requires d.Valid() && ref in d.index.lists
    modifies d`store, d`index, d`removedPaths
    ensures d.Valid()
    ensures var l := old(d.index.lists[ref]);
            var w := PurgeList(old(d.store), l, synced, |l|);
            && r == (if w.failed then Fail(StaleNode) else Pass)
            && d.store == RemoveRounds(old(d.store), w.roots)
            && d.removedPaths == old(d.removedPaths) + w.roots
            && d.index == old(d.index).(lists := old(d.index.lists)[ref := w.kept + w.left])
  {
    var l := d.index.lists[ref];
    var stale, kept, left, roots := WalkUnsynced(d, l, synced);
    PurgeDecides(old(d.store), l, synced, |l|);
    var lists := d.index.lists[ref := kept + left];
    assert WellFormed(Index(d.index.keys, lists), d.store);
    d.index := Index(d.index.keys, lists);
    r := if stale then Fail(StaleNode) else Pass;
  }

  /** What the loop over one parent's nodes relies on from SyncMirror: the list only grows, and the mirror joins it under `fp`. */
  method MirrorUnder(d: Drive, item: RemoteObject, fp: NodeRef, ref: ListRef, isFolder: bool)
    returns (r: Result<NodeRef>)
    requires d.Valid() && fp in d.store && ref in d.index.lists
    modifies d`store, d`nextRef, d`index, d`changed
    ensures d.Valid()
    ensures ref in d.index.lists && d.index.keys == old(d.index.keys)
    ensures d.index.lists == old(d.index.lists)[ref := d.index.lists[ref]]
    ensures old(d.index.lists[ref]) <= d.index.lists[ref]
    ensures forall h :: h in old(d.store) ==> h in d.store && d.store[h].parent == old(d.store)[h].parent
    ensures r.Err? ==> r.error == StaleNode
    ensures r.Ok? ==> r.value in d.index.lists[ref] && r.value in d.store && d.store[r.value].parent == fp
    ensures r.Ok? && r.value in old(d.index.lists[ref]) ==> d.store[r.value].title == item.name
    ensures KeepsName(old(d.store), d.store, item.name)
  {
    r := SyncMirror(d, item, fp, ref, isFolder);
  }

  /**
   * The inner loop of updateFile over the local nodes `fps` of one remote
   * parent: every one gets its mirror from the list `ref`, and the mirrors
   * join `synced`. A failing node operation ends the loop.
   */
  method SyncUnder(d: Drive, item: RemoteObject, fps: seq<NodeRef>, ref: ListRef, isFolder: bool,
                   synced: set<NodeRef>, ghost l0: seq<NodeRef>)
    returns (r: Outcome, synced': set<NodeRef>)
    requires d.Valid() && ref in d.index.lists
    requires forall fp :: fp in fps ==> fp in d.store
    requires forall n :: n in synced ==> n in d.index.lists[ref] && n in d.store
    requires l0 <= d.index.lists[ref] && Renamed(d.store, item.name, l0, synced)
    modifies d`store, d`nextRef, d`index, d`changed
    ensures d.Valid()
    ensures ref in d.index.lists && d.index.keys == old(d.index.keys)
    ensures d.index.lists == old(d.index.lists)[ref := d.index.lists[ref]]
    ensures old(d.index.lists[ref]) <= d.index.lists[ref]
    ensures forall h :: h in old(d.store) ==> h in d.store && d.store[h].parent == old(d.store)[h].parent
    ensures r.Fail? ==> r.error == StaleNode
    ensures synced <= synced'
    ensures forall n :: n in synced' ==> n in d.index.lists[ref] && n in d.store
    ensures forall n :: n in synced' && n !in synced ==> d.store[n].parent in fps
    ensures r.Pass? ==> forall fp :: fp in fps ==> exists n :: n in synced' && d.store[n].parent == fp
    ensures KeepsName(old(d.store), d.store, item.name) && Renamed(d.store, item.name, l0, synced')
  {
    synced' := synced;
    ghost var wit: seq<NodeRef> := [];
    var j := 0;
    while j < |fps|
      invariant j <= |fps| && |wit| == j
      invariant d.Valid()
      invariant ref in d.index.lists && d.index.keys == old(d.index.keys)
      invariant d.index.lists == old(d.index.lists)[ref := d.index.lists[ref]]
      invariant old(d.index.lists[ref]) <= d.index.lists[ref]
      invariant KeepsParents(old(d.store), d.store)
      invariant SyncedIn(d.store, d.index.lists[ref], synced, synced', fps, wit)
      invariant KeepsName(old(d.store), d.store, item.name) && Renamed(d.store, item.name, l0, synced')
    {
      ghost var s1, lists1 := d.store, d.index.lists;
      var m := MirrorUnder(d, item, fps[j], ref, isFolder);
      UpdateTwice(old(d.index.lists), ref, lists1[ref], d.index.lists[ref]);
      KeepsParentsTrans(old(d.store), s1, d.store);
      KeepsNameTrans(old(d.store), s1, d.store, item.name);
      RenamedKept(s1, d.store, item.name, l0, synced');
      if m.Err? {
        SyncedGrows(s1, d.store, lists1[ref], d.index.lists[ref], synced, synced', fps, wit);
        return Fail(m.error), synced';
      }
      SyncedStep(s1, d.store, lists1[ref], d.index.lists[ref], synced, synced', fps, wit, m.value);
      synced' := synced' + {m.value};
      wit := wit + [m.value];
      j := j + 1;
    }
    SyncedCovers(d.store, d.index.lists[ref], synced, synced', fps, wit);
    r := Pass;
  }

  /** A node of `s0` that carries the title `name` is still in `s1` and still carries it. */
  ghost predicate KeepsName(s0: Store, s1: Store, name: string) {
    forall h :: h in s0 && s0[h].title == name ==> h in s1 && s1[h].title == name
  }

  /** moveFile with the title `name` keeps every title equal to `name`. */
  lemma MoveKeepsName(s: Store, h: NodeRef, newParent: NodeRef, newPath: Path, name: string)
    requires h in s
    ensures KeepsName(s, MoveNode(s, h, newParent, newPath, name), name)
  {
  }

  lemma KeepsNameTrans(s0: Store, s1: Store, s2: Store, name: string)
    requires KeepsName(s0, s1, name) && KeepsName(s1, s2, name)
    ensures KeepsName(s0, s2, name)
  {
  }

  /** The file's list as updateFile found it: the list `e0` of the index `idx0`, or none. */
  ghost function Earlier(idx0: Index, e0: Option<ListRef>): seq<NodeRef> {
    if e0.Some? && e0.value in idx0.lists then idx0.lists[e0.value] else []
  }

  /** Every synced node that was on the file's earlier list `l0` carries the title `name`. */
  ghost predicate Renamed(s: Store, name: string, l0: seq<NodeRef>, synced: set<NodeRef>) {
    forall n :: n in synced && n in l0 ==> n in s && s[n].title == name
  }

  lemma RenamedKept(s0: Store, s1: Store, name: string, l0: seq<NodeRef>, synced: set<NodeRef>)
    requires Renamed(s0, name, l0, synced) && KeepsName(s0, s1, name)
    ensures Renamed(s1, name, l0, synced)
  {
  }

  /** Every node of `s0` is in `s1`, under the same parent. */
  ghost predicate KeepsParents(s0: Store, s1: Store) {
    forall h :: h in s0 ==> h in s1 && s1[h].parent == s0[h].parent
  }

  lemma KeepsParentsTrans(s0: Store, s1: Store, s2: Store)
    requires KeepsParents(s0, s1) && KeepsParents(s1, s2)
    ensures KeepsParents(s0, s2)
  {
  }

  /**
   * The nodes `synced` (which include `base`) are on the list `l`, and each one
   * not in `base` is under one of `fps`; `wit` holds a synced node under each of
   * the first nodes of `fps`.
   */
  ghost predicate SyncedIn(s: Store, l: seq<NodeRef>, base: set<NodeRef>, synced: set<NodeRef>,
                           fps: seq<NodeRef>, wit: seq<NodeRef>)
  {
    && base <= synced && |wit| <= |fps|
    && (forall n :: n in synced ==> n in l && n in s)
    && (forall n :: n in synced && n !in base ==> s[n].parent in fps)
    && (forall k :: 0 <= k < |wit| ==> wit[k] in synced && s[wit[k]].parent == fps[k])
  }

  lemma SyncedGrows(s0: Store, s1: Store, l0: seq<NodeRef>, l1: seq<NodeRef>, base: set<NodeRef>,
                    synced: set<NodeRef>, fps: seq<NodeRef>, wit: seq<NodeRef>)
    requires SyncedIn(s0, l0, base, synced, fps, wit) && KeepsParents(s0, s1) && l0 <= l1
    ensures SyncedIn(s1, l1, base, synced, fps, wit)
  {
  }

  lemma SyncedStep(s0: Store, s1: Store, l0: seq<NodeRef>, l1: seq<NodeRef>, base: set<NodeRef>,
                   synced: set<NodeRef>, fps: seq<NodeRef>, wit: seq<NodeRef>, x: NodeRef)
    requires SyncedIn(s0, l0, base, synced, fps, wit) && KeepsParents(s0, s1) && l0 <= l1
    requires |wit| < |fps| && x in l1 && x in s1 && s1[x].parent == fps[|wit|]
    ensures SyncedIn(s1, l1, base, synced + {x}, fps, wit + [x])
  {
    SyncedGrows(s0, s1, l0, l1, base, synced, fps, wit);
  }

  lemma SyncedCovers(s: Store, l: seq<NodeRef>, base: set<NodeRef>, synced: set<NodeRef>,
                     fps: seq<NodeRef>, wit: seq<NodeRef>)
    requires SyncedIn(s, l, base, synced, fps, wit) && |wit| == |fps|
    ensures forall fp :: fp in fps ==> exists n :: n in synced && s[n].parent == fp
  {
    forall fp | fp in fps
      ensures exists n :: n in synced && s[n].parent == fp
    {
      var k :| 0 <= k < |fps| && fps[k] == fp;
      assert wit[k] in synced;
    }
  }

  /** The nodes of a list, as a set. */
  function Elements(l: seq<NodeRef>): (r: set<NodeRef>)
    ensures forall h :: h in r <==> h in l
  {
    set h | h in l
  }

  /** The local nodes the index holds for the remote object `pid`; none when it does not know it. */
  function NodesOf(idx: Index, pid: Id): (r: set<NodeRef>)
    ensures forall h :: h in r <==> pid in idx.keys && idx.keys[pid] in idx.lists && h in idx.lists[idx.keys[pid]]
  {
    if pid in idx.keys && idx.keys[pid] in idx.lists then Elements(idx.lists[idx.keys[pid]]) else {}
  }

  /** The local nodes of all the remote parents `pids`. */
  function ParentNodes(idx: Index, pids: seq<Id>): set<NodeRef> {
    if |pids| == 0 then {} else ParentNodes(idx, pids[..|pids| - 1]) + NodesOf(idx, pids[|pids| - 1])
  }

  /** The parent nodes are the nodes the index holds for one of the parents. */
  lemma {:induction false} ParentNodesMembers(idx: Index, pids: seq<Id>, h: NodeRef)
    ensures h in ParentNodes(idx, pids) <==> exists p :: p in pids && h in NodesOf(idx, p)
  {
    if |pids| > 0 {
      var init := pids[..|pids| - 1];
      ParentNodesMembers(idx, init, h);
      assert forall p :: p in pids <==> p in init || p == pids[|pids| - 1];
    }
  }

  /**
   * No remote parent is the file itself or shares its list in the index: the
   * parents' lists are not the list updateFile changes.
   */
  predicate Separate(idx: Index, pids: seq<Id>, item: RemoteObject) {
    forall p :: p in pids ==>
      p != item.id && (p in idx.keys ==> Some(idx.keys[p]) != FindDocumentNode(idx.keys, item.id, item))
  }

  /** existing = new ArrayList(); nodes.put(id, existing): a fresh empty list for a file the index does not know. */
  method NewList(d: Drive, id: Id) returns (ref: ListRef)
    requires d.Valid() && id !in d.index.keys
    modifies d`index, d`nextList
    ensures d.Valid()
    ensures ref == old(d.nextList) && ref !in old(d.index.lists) && d.nextList == old(d.nextList) + 1
    ensures d.index == Index(old(d.index.keys)[id := ref], old(d.index.lists)[ref := []])
  {
    ref := d.nextList;
    d.index := Index(d.index.keys[id := ref], d.index.lists[ref := []]);
    d.nextList := d.nextList + 1;
  }

  /** A walk that did not fail kept exactly the synced nodes of the list and left every other one removed. */
  lemma {:induction false} PurgeKeepsSynced(s1: Store, l: seq<NodeRef>, synced: set<NodeRef>)
    requires forall h :: h in l ==> h in s1
    requires forall n :: n in synced ==> n in l
    requires !PurgeList(s1, l, synced, |l|).failed
    ensures var w := PurgeList(s1, l, synced, |l|);
            && w.left == []
            && (forall n :: n in w.kept <==> n in synced)
            && (forall n :: n in l && n !in synced ==> !Live(RemoveRounds(s1, w.roots), n))
  {
    var w := PurgeList(s1, l, synced, |l|);
    PurgeDecides(s1, l, synced, |l|);
    forall n | n in synced
      ensures n in w.kept
    {
      var j :| 0 <= j < |l| && l[j] == n;
    }
    forall n | n in l && n !in synced
      ensures !Live(RemoveRounds(s1, w.roots), n)
    {
      var j :| 0 <= j < |l| && l[j] == n;
      BelowAnyMember(s1[n].path, w.roots);
      RemoveRoundsRemoves(s1, w.roots, n);
    }
  }

  /**
   * The index `idx0` once the file's list `existing` holds `l`: a list found
   * for the file is replaced, a list created for it is added under its id.
   */
  ghost function Grown(idx0: Index, id: Id, e0: Option<ListRef>, existing: Option<ListRef>, l: seq<NodeRef>): Index {
    if existing.None? then idx0
    else if e0.Some? then idx0.(lists := idx0.lists[existing.value := l])
    else Index(idx0.keys[id := existing.value], idx0.lists[existing.value := l])
  }

  /**
   * What the loop over the remote parents keeps: the file's list `existing`
   * is the one found in the index at the start, or one created for it under
   * its own id; it only grew, and nothing else in the index changed; the
   * synced nodes are on that list, each under one of the parent nodes `done`
   * visited.
   */
  ghost predicate Shape(idx: Index, s: Store, item: RemoteObject, idx0: Index, e0: Option<ListRef>,
                        existing: Option<ListRef>, synced: set<NodeRef>, done: set<NodeRef>)
  {
    && (existing.None? ==> idx == idx0 && done == {})
    && (existing.Some? ==> existing.value in idx.lists &&
                           idx == Grown(idx0, item.id, e0, existing, idx.lists[existing.value]))
    && (e0.Some? ==> existing == e0 && e0.value in idx0.lists && idx0.lists[e0.value] <= idx.lists[e0.value])
    && (e0.None? && existing.Some? ==> existing.value !in idx0.lists)
    && (forall n :: n in synced ==> && existing.Some? && n in idx.lists[existing.value] && n in s
                                    && s[n].parent in done)
  }

  /**
   * After the first `k` parents: each visited parent node has a synced mirror
   * under it, and (when no parent shares the file's list) the visited parent
   * nodes are those of the first `k` parents.
   */
  ghost predicate Progress(s: Store, item: RemoteObject, parentIds: seq<Id>, k: nat, idx0: Index,
                           synced: set<NodeRef>, done: set<NodeRef>)
    requires k <= |parentIds|
  {
    && (forall fp :: fp in done ==> exists n :: n in synced && n in s && s[n].parent == fp)
    && (Separate(idx0, parentIds, item) ==> done == ParentNodes(idx0, parentIds[..k]))
  }

  /** The local nodes `fps` of one remote parent get their mirrors, in a list created for the file when it has none. */
  method SyncListed(d: Drive, item: RemoteObject, fps: seq<NodeRef>, isFolder: bool,
                    existing: Option<ListRef>, synced: set<NodeRef>,
                    ghost done: set<NodeRef>, ghost idx0: Index, ghost e0: Option<ListRef>)
    returns (r: Outcome, existing': Option<ListRef>, synced': set<NodeRef>, ghost done': set<NodeRef>)
    requires d.Valid() && forall fp :: fp in fps ==> fp in d.store
    requires e0 == FindDocumentNode(idx0.keys, item.id, item)
    requires Shape(d.index, d.store, item, idx0, e0, existing, synced, done)
    requires forall fp :: fp in done ==> exists n :: n in synced && d.store[n].parent == fp
    requires Renamed(d.store, item.name, Earlier(idx0, e0), synced)
    modifies d`store, d`nextRef, d`index, d`nextList, d`changed
    ensures d.Valid()
    ensures forall h :: h in old(d.store) ==> h in d.store
    ensures KeepsName(old(d.store), d.store, item.name) && Renamed(d.store, item.name, Earlier(idx0, e0), synced')
    ensures forall k :: k in old(d.index.keys) ==> k in d.index.keys
    ensures done' == done + Elements(fps)
    ensures Shape(d.index, d.store, item, idx0, e0, existing', synced', done')
    ensures r.Pass? ==> forall fp :: fp in done' ==> exists n :: n in synced' && d.store[n].parent == fp
    ensures r.Fail? ==> r.error == StaleNode
  {
    existing', synced', done' := existing, synced, done + Elements(fps);
    r := Pass;
    if |fps| > 0 {
      if existing'.None? {
        var ref := NewList(d, item.id);
        ShapeNewList(old(d.index), d.index, d.store, item, idx0, e0, ref, synced, done);
        existing' := Some(ref);
      }
      ghost var idx1, s1 := d.index, d.store;
      r, synced' := SyncUnder(d, item, fps, existing'.value, isFolder, synced', Earlier(idx0, e0));
      ShapeGrows(idx1, d.index, s1, d.store, item, idx0, e0, existing', synced, synced', done, fps);
    }
  }

  /** A list created for the file keeps Shape. */
  lemma ShapeNewList(idx: Index, idx': Index, s: Store, item: RemoteObject, idx0: Index, e0: Option<ListRef>,
                     ref: ListRef, synced: set<NodeRef>, done: set<NodeRef>)
    requires Shape(idx, s, item, idx0, e0, None, synced, done)
    requires ref !in idx.lists && idx' == Index(idx.keys[item.id := ref], idx.lists[ref := []])
    ensures Shape(idx', s, item, idx0, e0, Some(ref), synced, done)
  {
  }

  /** The file's list grown by the mirrors under the nodes `fps` keeps Shape, with those nodes visited. */
  lemma ShapeGrows(idx: Index, idx': Index, s: Store, s': Store, item: RemoteObject, idx0: Index, e0: Option<ListRef>,
                   existing: Option<ListRef>, synced: set<NodeRef>, synced': set<NodeRef>, done: set<NodeRef>,
                   fps: seq<NodeRef>)
    requires Shape(idx, s, item, idx0, e0, existing, synced, done) && existing.Some?
    requires existing.value in idx.lists && existing.value in idx'.lists && idx'.keys == idx.keys
    requires idx'.lists == idx.lists[existing.value := idx'.lists[existing.value]]
    requires idx.lists[existing.value] <= idx'.lists[existing.value]
    requires forall h :: h in s ==> h in s' && s'[h].parent == s[h].parent
    requires synced <= synced' && forall n :: n in synced' ==> n in idx'.lists[existing.value] && n in s'
    requires forall n :: n in synced' && n !in synced ==> s'[n].parent in fps
    ensures Shape(idx', s', item, idx0, e0, existing, synced', done + Elements(fps))
  {
    UpdateTwice(idx0.lists, existing.value, idx.lists[existing.value], idx'.lists[existing.value]);
  }

  /** Under Separate, a parent's list read during the loop is its list before updateFile. */
  lemma {:induction false} ReadsParentList(idx: Index, s: Store, idx0: Index, s0: Store, item: RemoteObject,
                                           parentIds: seq<Id>, k: nat, e0: Option<ListRef>, existing: Option<ListRef>,
                                           synced: set<NodeRef>, done: set<NodeRef>)
    requires k < |parentIds| && parentIds[k] in idx.keys && Separate(idx0, parentIds, item)
    requires e0 == FindDocumentNode(idx0.keys, item.id, item)
    requires WellFormed(idx0, s0) && Shape(idx, s, item, idx0, e0, existing, synced, done)
    ensures idx.keys[parentIds[k]] in idx.lists ==>
              Elements(idx.lists[idx.keys[parentIds[k]]]) == NodesOf(idx0, parentIds[k])
  {
    var pid := parentIds[k];
    assert pid in idx0.keys && Some(idx0.keys[pid]) != e0;
  }

  /** One remote parent of updateFile's loop: one the index does not know is an inconsistency. */
  method ParentStep(d: Drive, item: RemoteObject, parentIds: seq<Id>, k: nat, isFolder: bool,
                    existing: Option<ListRef>, synced: set<NodeRef>,
                    ghost done: set<NodeRef>, ghost idx0: Index, ghost s0: Store, ghost e0: Option<ListRef>)
    returns (r: Outcome, existing': Option<ListRef>, synced': set<NodeRef>, ghost done': set<NodeRef>)
    requires d.Valid() && WellFormed(idx0, s0) && k < |parentIds|
    requires e0 == FindDocumentNode(idx0.keys, item.id, item)
    requires Shape(d.index, d.store, item, idx0, e0, existing, synced, done)
    requires Progress(d.store, item, parentIds, k, idx0, synced, done)
    requires Renamed(d.store, item.name, Earlier(idx0, e0), synced)
    modifies d`store, d`nextRef, d`index, d`nextList, d`changed
    ensures d.Valid()
    ensures Shape(d.index, d.store, item, idx0, e0, existing', synced', done')
    ensures Renamed(d.store, item.name, Earlier(idx0, e0), synced')
    ensures r.Pass? ==> Progress(d.store, item, parentIds, k + 1, idx0, synced', done')
    ensures r.Pass? ==> parentIds[k] in idx0.keys || parentIds[k] == item.id
    ensures r == Fail(Inconsistent) ==> parentIds[k] !in idx0.keys
    ensures r.Fail? ==> r.error == Inconsistent || r.error == StaleNode
  {
    var pid := parentIds[k];
    if pid !in d.index.keys {
      return Fail(Inconsistent), existing, synced, done;
    }
    var fileParents := d.index.lists[d.index.keys[pid]];
    if Separate(idx0, parentIds, item) {
      ReadsParentList(d.index, d.store, idx0, s0, item, parentIds, k, e0, existing, synced, done);
      ParentsStep(idx0, parentIds, k);
    }
    r, existing', synced', done' := SyncListed(d, item, fileParents, isFolder, existing, synced, done, idx0, e0);
  }

  /**
   * The loop of updateFile over the remote parents: a parent the index does
   * not know is an inconsistency; every local node of a known parent gets its
   * mirror of the file, in a list created for the file when it has none.
   */
  method SyncParents(d: Drive, item: RemoteObject, parentIds: seq<Id>, isFolder: bool)
    returns (r: Outcome, existing: Option<ListRef>, synced: set<NodeRef>, ghost done: set<NodeRef>, ghost e0: Option<ListRef>)
    requires d.Valid()
    modifies d`store, d`nextRef, d`index, d`nextList, d`changed
    ensures d.Valid()
    ensures e0 == FindDocumentNode(old(d.index.keys), item.id, item)
    ensures Shape(d.index, d.store, item, old(d.index), e0, existing, synced, done)
    ensures Renamed(d.store, item.name, Earlier(old(d.index), e0), synced)
    ensures r.Pass? ==> Progress(d.store, item, parentIds, |parentIds|, old(d.index), synced, done)
    ensures r.Pass? ==> forall p :: p in parentIds ==> p in old(d.index.keys) || p == item.id
    ensures r == Fail(Inconsistent) ==> exists p :: p in parentIds && p !in old(d.index.keys)
    ensures r.Fail? ==> r.error == Inconsistent || r.error == StaleNode
  {
    ghost var idx0 := d.index;
    existing := FindDocumentNode(d.index.keys, item.id, item);
    e0 := existing;
    synced, done := {}, {};
    var k := 0;
    while k < |parentIds|
      invariant k <= |parentIds| && d.Valid()
      invariant Shape(d.index, d.store, item, idx0, e0, existing, synced, done)
      invariant Progress(d.store, item, parentIds, k, idx0, synced, done)
      invariant Renamed(d.store, item.name, Earlier(idx0, e0), synced)
      invariant KnownParents(idx0.keys, item.id, parentIds, k)
      invariant WellFormed(idx0, old(d.store)) && e0 == FindDocumentNode(idx0.keys, item.id, item)
    {
      r, existing, synced, done := ParentStep(d, item, parentIds, k, isFolder, existing, synced, done, idx0, old(d.store), e0);
      if r.Fail? {
        return;
      }
      k := k + 1;
    }
    KnownParentsAll(idx0.keys, item.id, parentIds, k);
    r := Pass;
  }

  /** The first `n` remote parents are keys of the index, or the file itself. */
  ghost predicate KnownParents(keys: map<Id, ListRef>, id: Id, pids: seq<Id>, n: nat)
    requires n <= |pids|
  {
    n == 0 || (KnownParents(keys, id, pids, n - 1) && (pids[n - 1] in keys || pids[n - 1] == id))
  }

  lemma {:induction false} KnownParentsAll(keys: map<Id, ListRef>, id: Id, pids: seq<Id>, n: nat)
    requires n <= |pids| && KnownParents(keys, id, pids, n)
    ensures forall q :: 0 <= q < n ==> pids[q] in keys || pids[q] == id
  {
    if n > 0 {
      KnownParentsAll(keys, id, pids, n - 1);
    }
  }

  lemma {:induction false} ParentsStep(idx: Index, pids: seq<Id>, k: nat)
    requires k < |pids|
    ensures ParentNodes(idx, pids[..k + 1]) == ParentNodes(idx, pids[..k]) + NodesOf(idx, pids[k])
  {
    assert pids[..k + 1][..k] == pids[..k];
  }

  /** The mirrors `synced` lie under the parent nodes `done`, and every one of those has a mirror under it. */
  ghost predicate Covers(s: Store, synced: set<NodeRef>, done: set<NodeRef>) {
    && (forall n :: n in synced ==> n in s && s[n].parent in done)
    && (forall fp :: fp in done ==> exists n :: n in synced && n in s && s[n].parent == fp)
  }

  /** Removing nodes changes no parent: the cover survives. */
  lemma CoversAfterRemoval(s: Store, roots: seq<Path>, synced: set<NodeRef>, done: set<NodeRef>)
    requires Covers(s, synced, done)
    ensures Covers(RemoveRounds(s, roots), synced, done)
  {
    var s' := RemoveRounds(s, roots);
    forall fp | fp in done
      ensures exists n :: n in synced && n in s' && s'[n].parent == fp
    {
      var n :| n in synced && n in s && s[n].parent == fp;
      assert s'[n].parent == fp;
    }
  }

  /** The end of the parents loop, when it passed: the cover it reached, and with Separate, the nodes it visited. */
  lemma {:induction false} ParentsCovered(s: Store, item: RemoteObject, parentIds: seq<Id>, idx: Index, idx0: Index,
                                          e0: Option<ListRef>, existing: Option<ListRef>,
                                          synced: set<NodeRef>, done: set<NodeRef>)
    requires Shape(idx, s, item, idx0, e0, existing, synced, done)
    requires Progress(s, item, parentIds, |parentIds|, idx0, synced, done)
    ensures Covers(s, synced, done)
    ensures Separate(idx0, parentIds, item) ==> done == ParentNodes(idx0, parentIds)
  {
    assert parentIds[..|parentIds|] == parentIds;
  }

  /**
   * The final walk of updateFile over the file's list `ref`, once every
   * parent passed: the list keeps exactly the synced mirrors, every other
   * mirror on it is removed, and the cover of the parents stays.
   */
  method DropUnsynced(d: Drive, ref: ListRef, synced: set<NodeRef>, ghost done: set<NodeRef>) returns (r: Outcome)
    requires d.Valid() && ref in d.index.lists
    requires forall n :: n in synced ==> n in d.index.lists[ref]
    requires Covers(d.store, synced, done)
    modifies d`store, d`index, d`removedPaths
    ensures d.Valid()
    ensures r.Fail? ==> r.error == StaleNode
    ensures ref in d.index.lists && d.index == old(d.index).(lists := old(d.index.lists)[ref := d.index.lists[ref]])
    ensures r.Pass? ==> forall n :: n in d.index.lists[ref] <==> n in synced
    ensures r.Pass? ==> forall n :: n in old(d.index.lists[ref]) && n !in synced ==> !Live(d.store, n)
    ensures r.Pass? ==> Covers(d.store, synced, done)
    ensures forall h :: h in old(d.store) ==> h in d.store && d.store[h].title == old(d.store)[h].title
  {
    ghost var s1, l := d.store, d.index.lists[ref];
    r := PurgeUnsynced(d, ref, synced);
    ghost var w := PurgeList(s1, l, synced, |l|);
    if r.Pass? {
      PurgeKeepsSynced(s1, l, synced);
      CoversAfterRemoval(s1, w.roots, synced, done);
    }
  }

  /**
   * What updateFile(file, parentIds, isFolder) does to the store `s0` and the
   * index `i0`, giving the outcome `r`, the file's list `existing`, the synced
   * mirrors, the parent nodes visited (`done`) and the new `s1`, `i1`: an
   * inconsistency names an unknown parent; the file's list only grew (or was
   * made) and nothing else in the index changed; after a pass every parent
   * node visited has a synced mirror under it, the list holds exactly the
   * synced mirrors, and the file's earlier mirrors not synced are gone.
   * Every earlier mirror that was synced carries the remote name as its
   * title: it was renamed when its title differed.
   */
  ghost predicate Updated(s0: Store, i0: Index, item: RemoteObject, parentIds: seq<Id>, r: Outcome,
                          existing: Option<ListRef>, synced: set<NodeRef>, done: set<NodeRef>, s1: Store, i1: Index)
    requires WellFormed(i0, s0)
  {
    && (r == Fail(Inconsistent) ==> exists p :: p in parentIds && p !in i0.keys)
    && (r.Fail? ==> r.error == Inconsistent || r.error == StaleNode)
    && (r.Pass? ==> forall p :: p in parentIds ==> p in i0.keys || p == item.id)
    && (existing.None? ==> i1 == i0)
    && (existing.Some? ==>
          && existing.value in i1.lists
          && i1 == Grown(i0, item.id, FindDocumentNode(i0.keys, item.id, item), existing, i1.lists[existing.value]))
    && (r.Pass? ==> Covers(s1, synced, done))
    && (r.Pass? && existing.Some? ==> forall n :: n in i1.lists[existing.value] <==> n in synced)
    && (r.Pass? ==> var e0 := FindDocumentNode(i0.keys, item.id, item);
                    e0.Some? ==> forall n :: n in i0.lists[e0.value] && n !in synced ==> !Live(s1, n))
    && (r.Pass? && Separate(i0, parentIds, item) ==> done == ParentNodes(i0, parentIds))
    && Renamed(s1, item.name, Earlier(i0, FindDocumentNode(i0.keys, item.id, item)), synced)
  }

  /**
   * updateFile(file, parentIds, isFolder): every local node of every remote
   * parent gets its mirror of the file, in the file's list of the index (one
   * made for it when the index has none); a parent the index does not know
   * is an inconsistency. Then every mirror on the file's list that this call
   * did not sync leaves the list and is removed.
   */
  method UpdateFile(d: Drive, item: RemoteObject, parentIds: seq<Id>, isFolder: bool)
    returns (r: Outcome, existing: Option<ListRef>, synced: set<NodeRef>, ghost done: set<NodeRef>)
    requires d.Valid()
    modifies d`store, d`nextRef, d`index, d`nextList, d`changed, d`removedPaths
    ensures d.Valid()
    ensures Updated(old(d.store), old(d.index), item, parentIds, r, existing, synced, done, d.store, d.index)
  {
    ghost var e0;
    r, existing, synced, done, e0 := SyncParents(d, item, parentIds, isFolder);
    if r.Fail? {
      return;
    }
    ParentsCovered(d.store, item, parentIds, d.index, old(d.index), e0, existing, synced, done);
    if existing.Some? {
      ghost var idx1 := d.index;
      r := DropUnsynced(d, existing.value, synced, done);
      UpdateTwice(old(d.index.lists), existing.value, idx1.lists[existing.value], d.index.lists[existing.value]);
    }
  }
}
