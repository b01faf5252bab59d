/**
 * The full-traversal synchronization (Sync.TraversingAlgorithm): the consumer
 * of the items the folder readers list, the bookkeeping of the readers, and
 * the removal of the local nodes no listing claimed. The readers themselves
 * run in worker threads and are not modelled: the consumer works over a given
 * queue of listed items, in any order.
 */
module Traversal {
  import opened Wrappers
  import opened Remote
  import opened LocalStore
  import opened NodeIndex
  import opened LocalDrive
  import Changes

  /**
   * isReadDone over the readers' done flags, oldest first: finished readers
   * leave the queue from its head up to the first one still running.
   */
  method IsReadDone(readers: seq<bool>) returns (done: bool, rest: seq<bool>)
    ensures done <==> forall i :: 0 <= i < |readers| ==> readers[i]
    ensures exists k :: 0 <= k <= |readers| && rest == readers[k..] && forall i :: 0 <= i < k ==> readers[i]
    ensures done <==> rest == []
    ensures !done ==> !rest[0]
  {
    rest := readers;
    var k := 0;
    while k < |readers|
      invariant k <= |readers| && rest == readers[k..]
      invariant forall i :: 0 <= i < k ==> readers[i]
    {
      if !readers[k] {
        return false, rest;
      }
      rest := rest[1..];
      k := k + 1;
    }
    done := true;
  }

  /** A CMISItem: a listed object, the folder it was listed in, and whether it was put back once. */
  datatype Pending = Pending(item: RemoteObject, parentId: Id, postponed: bool)

  /** How many more times the consumer can take the item: twice, or once when it was put back already. */
  function Chances(p: Pending): nat {
    if p.postponed then 1 else 2
  }

  /** The chances left over a whole queue. */
  function Weight(q: seq<Pending>): (w: nat)
    ensures w <= 2 * |q|
    ensures |q| > 0 ==> w >= |q|
  {
    if |q| == 0 then 0 else Chances(q[0]) + Weight(q[1..])
  }

  lemma {:induction false} WeightAppend(q: seq<Pending>, p: Pending)
    ensures Weight(q + [p]) == Weight(q) + Chances(p)
  {
    if |q| > 0 {
      assert (q + [p])[1..] == q[1..] + [p];
      WeightAppend(q[1..], p);
    }
  }

  /** The folders the items of a queue were listed in. */
  function ListedIn(q: seq<Pending>): (r: set<Id>)
    ensures forall p :: p in q ==> p.parentId in r
    ensures forall x :: x in r ==> exists p :: p in q && p.parentId == x
  {
    set p | p in q :: p.parentId
  }

  /**
   * The mirrors of `id` at or below `path` are marked as existing: they
   * leave the id's list of the index (the list every alias of the id
   * shares), and a list left empty loses the key `id` (and only that key).
   */
  function Unmark(s: Store, idx: Index, id: Id, path: Path): (r: Index)
    requires WellFormed(idx, s)
    ensures WellFormed(r, s)
    ensures id !in idx.keys ==> r == idx
    ensures id in idx.keys ==>
              var l := idx.keys[id];
              && l in r.lists && r.lists == idx.lists[l := r.lists[l]]
              && (forall h :: h in r.lists[l] <==> h in idx.lists[l] && !StartsWith(s[h].path, path))
              && (id in r.keys <==> |r.lists[l]| > 0)
              && (forall k :: k != id ==> (k in r.keys <==> k in idx.keys))
              && (forall k :: k in r.keys ==> r.keys[k] == idx.keys[k])
  {
    if id !in idx.keys then idx
    else
      var l := idx.keys[id];
      var kept := PruneList(s, idx.lists[l], path);
      Index(if |kept| == 0 then idx.keys - {id} else idx.keys, idx.lists[l := kept])
  }

  /** Marking the same mirrors twice changes nothing more. */
  lemma {:induction false} UnmarkIdempotent(s: Store, idx: Index, id: Id, path: Path)
    requires WellFormed(idx, s)
    ensures Unmark(s, Unmark(s, idx, id, path), id, path) == Unmark(s, idx, id, path)
  {
    var once := Unmark(s, idx, id, path);
    if id in once.keys {
      var l := idx.keys[id];
      PruneListIdempotent(s, idx.lists[l], path);
      assert once.lists[l := PruneList(s, once.lists[l], path)] == once.lists;
    }
  }

  /**
   * What marking the mirrors of `id` under any number of parents leaves of
   * the index: only the id's list shrank, and the key `id` is gone exactly
   * when that list was left empty.
   */
  ghost predicate Narrowed(before: Index, after: Index, id: Id) {
    after == before || (id in before.keys && Shrunk(before, after, id, before.keys[id]))
  }

  ghost predicate Shrunk(before: Index, after: Index, id: Id, l: ListRef) {
    && l in before.lists && l in after.lists && after.lists == before.lists[l := after.lists[l]]
    && (forall h :: h in after.lists[l] ==> h in before.lists[l])
    && after.keys == (if |after.lists[l]| > 0 then before.keys else before.keys - {id})
  }

  lemma {:induction false} UnmarkNarrows(s: Store, idx: Index, id: Id, path: Path)
    requires WellFormed(idx, s)
    ensures Narrowed(idx, Unmark(s, idx, id, path), id)
  {
    var r := Unmark(s, idx, id, path);
    if id in idx.keys {
      var l := idx.keys[id];
      if |r.lists[l]| > 0 {
        assert r.keys == idx.keys;
      } else {
        assert r.keys == idx.keys - {id};
      }
    }
  }

  lemma {:induction false} NarrowedTrans(a: Index, b: Index, c: Index, id: Id)
    requires Narrowed(a, b, id) && Narrowed(b, c, id)
    ensures Narrowed(a, c, id)
  {
    if b != a && c != b {
      assert b.keys[id] == a.keys[id];
    }
  }

  /** allLocal.get(id), with an absent key read as an empty list. */
  function NodesAt(m: map<Id, seq<NodeRef>>, id: Id): seq<NodeRef> {
    if id in m then m[id] else []
  }

  /** The nodes of the given local files, in order. */
  function NodesOf(fs: seq<LocalFile>): (r: seq<NodeRef>)
    ensures |r| == |fs| && forall i :: 0 <= i < |fs| ==> r[i] == fs[i].node
  {
    seq(|fs|, i requires 0 <= i < |fs| => fs[i].node)
  }

  /** The pruning of `nodes.get(id)` in syncChilds, as Unmark states it. */
  method MarkExisting(d: Drive, id: Id, path: Path)
    requires d.Valid()
    modifies d`index
    ensures d.Valid()
    ensures d.index == Unmark(d.store, old(d.index), id, path)
    ensures Narrowed(old(d.index), d.index, id)
  {
    UnmarkNarrows(d.store, d.index, id, path);
    d.SetIndex(Unmark(d.store, d.index, id, path));
  }

  /** `allLocal` after the nodes of the given changed files were added to the list of `id`. */
  function WithNodes(m: map<Id, seq<NodeRef>>, id: Id, fs: seq<LocalFile>): (r: map<Id, seq<NodeRef>>)
    ensures r.Keys == m.Keys + (if |fs| == 0 then {} else {id})
    ensures forall k :: k in m && k != id ==> r[k] == m[k]
    ensures id in r ==> r[id] == NodesAt(m, id) + NodesOf(fs)
  {
    if |fs| == 0 then m else m[id := NodesAt(m, id) + NodesOf(fs)]
  }

  lemma {:induction false} WithNodesAppend(m: map<Id, seq<NodeRef>>, id: Id, a: seq<LocalFile>, b: seq<LocalFile>)
    ensures WithNodes(WithNodes(m, id, a), id, b) == WithNodes(m, id, a + b)
  {
    assert NodesOf(a + b) == NodesOf(a) + NodesOf(b);
    if |a| == 0 {
      assert a + b == b;
    } else if |b| == 0 {
      assert a + b == a;
    } else {
      assert NodesAt(m, id) + NodesOf(a) + NodesOf(b) == NodesAt(m, id) + (NodesOf(a) + NodesOf(b));
    }
  }

  /** addChanged then saveChunk, for an item updateItem reported changed. */
  method Record(d: Drive, file: LocalFile) returns (r: Outcome)
    requires d.Valid()
    modifies d`store, d`persisted, d`checkpoints, d`changed
    ensures d.Valid() && d.changed == old(d.changed) + [file]
    ensures old(d.store).Keys <= d.store.Keys
    ensures r.Fail? ==> r.error == StaleNode || r.error == NullPointer
  {
    d.AddChanged(file);
    r := d.SaveChunk();
  }

  /**
   * The body of syncChilds for one parent node of a listed item: the item is
   * updated under the parent; a changed item is recorded, a chunk saved and
   * its node added to the item's list of `allLocal`; then the item's mirrors
   * at or below the path of the updated node are marked as existing.
   */
  method SyncAtParent(d: Drive, item: RemoteObject, parent: NodeRef, allLocal: map<Id, seq<NodeRef>>)
    returns (r: Result<LocalFile>, allLocal': map<Id, seq<NodeRef>>, added: seq<LocalFile>)
    requires d.Valid()
    modifies d`store, d`nextRef, d`persisted, d`checkpoints, d`changed, d`index
    ensures d.Valid()
    ensures r.Err? ==> (r.error == StaleNode || r.error == NullPointer) && allLocal' == allLocal
    ensures d.changed == old(d.changed) + added && |added| <= 1
    ensures forall f :: f in added ==> f.id == item.id && f.changed
    ensures old(d.store).Keys <= d.store.Keys
    ensures r.Ok? ==> && r.value.id == item.id && (r.value.changed <==> |added| == 1)
                      && allLocal' == WithNodes(allLocal, item.id, added)
                      && d.index == Unmark(d.store, old(d.index), item.id, r.value.path)
    ensures Narrowed(old(d.index), d.index, item.id)
  {
    allLocal', added := allLocal, [];
    r := d.UpdateItem(item, parent, None);
    if r.Err? {
      return;
    }
    var file := r.value;
    if file.changed {
      added := [file];
      var saved := Record(d, file);
      if saved.Fail? {
        return Err(saved.error), allLocal', added;
      }
      allLocal' := WithNodes(allLocal, item.id, added);
    }
    MarkExisting(d, item.id, file.path);
  }

  /**
   * The body of syncChilds for a listed item whose folder is known locally:
   * the item is synced under each local node of the folder, in order.
   */
  method SyncItem(d: Drive, item: RemoteObject, parents: seq<NodeRef>, allLocal: map<Id, seq<NodeRef>>)
    returns (r: Outcome, allLocal': map<Id, seq<NodeRef>>, added: seq<LocalFile>)
    requires d.Valid()
    modifies d`store, d`nextRef, d`persisted, d`checkpoints, d`changed, d`index
    ensures d.Valid()
    ensures r.Fail? ==> r.error == StaleNode || r.error == NullPointer
    ensures allLocal.Keys <= allLocal'.Keys
    ensures d.changed == old(d.changed) + added && |added| <= |parents|
    ensures forall f :: f in added ==> f.id == item.id && f.changed
    ensures r.Pass? ==> allLocal' == WithNodes(allLocal, item.id, added)
    ensures Narrowed(old(d.index), d.index, item.id)
  {
    allLocal', added := allLocal, [];
    var i := 0;
    while i < |parents|
      invariant i <= |parents| && d.Valid()
      invariant d.changed == old(d.changed) + added && |added| <= i
      invariant forall f :: f in added ==> f.id == item.id && f.changed
      invariant allLocal' == WithNodes(allLocal, item.id, added)
      invariant Narrowed(old(d.index), d.index, item.id)
    {
      ghost var idx := d.index;
      var one, more;
      one, allLocal', more := SyncAtParent(d, item, parents[i], allLocal');
      NarrowedTrans(old(d.index), idx, d.index, item.id);
      WithNodesAppend(allLocal, item.id, added, more);
      added := added + more;
      if one.Err? {
        return Fail(one.error), allLocal', added;
      }
      i := i + 1;
    }
    r := Pass;
  }

  /**
   * What the consumer keeps of the items of `queue` while `q` is left to
   * take: every folder named in `q` was named in `queue`, and every folder
   * named in `queue` has local nodes already or is still named in `q`.
   */
  predicate Covered(queue: seq<Pending>, q: seq<Pending>, known: set<Id>) {
    && ListedIn(q) <= ListedIn(queue)
    && forall p :: p in queue ==> p.parentId in known || p.parentId in ListedIn(q)
  }

  /**
   * One turn of the consumer loop of syncChilds: the head of the queue is
   * taken, then the interruption is checked; an item whose folder has local
   * nodes is synced under each of them, any other is put back once and fails
   * the sync the second time.
   */
  method TakeItem(d: Drive, ghost queue: seq<Pending>, q: seq<Pending>, allLocal: map<Id, seq<NodeRef>>)
    returns (r: Outcome, stop: bool, q': seq<Pending>, allLocal': map<Id, seq<NodeRef>>)
    requires d.Valid() && |q| > 0 && Covered(queue, q, allLocal.Keys)
    modifies d`store, d`nextRef, d`persisted, d`checkpoints, d`changed, d`index, d`polls
    ensures d.Valid() && d.polls == old(d.polls) + 1
    ensures stop <==> old(d.polls) >= d.interruptAt
    ensures stop ==> r == Pass
    ensures allLocal.Keys <= allLocal'.Keys && Weight(q') < Weight(q)
    ensures r.Fail? ==> r.error == StaleNode || r.error == NullPointer || r.error == MissingParent
    ensures r == Fail(MissingParent) ==> q[0].parentId !in allLocal'
    ensures r.Pass? && !stop ==> Covered(queue, q', allLocal'.Keys)
  {
    var p := q[0];
    q', allLocal', r := q[1..], allLocal, Pass;
    assert Weight(q) == Chances(p) + Weight(q');
    stop := d.Poll();
    if stop {
      return;
    }
    if p.parentId in allLocal {
      var added;
      r, allLocal', added := SyncItem(d, p.item, allLocal[p.parentId], allLocal);
    } else if p.postponed {
      r := Fail(MissingParent);
    } else {
      WeightAppend(q', p.(postponed := true));
      q' := q' + [p.(postponed := true)];
    }
  }

  /**
   * The consumer loop of syncChilds over the items the readers listed, all
   * readers being done: items are taken from the head of the queue while the
   * thread is not interrupted (an item taken when the interruption is seen is
   * dropped). An item whose folder has no local node yet goes back to the end
   * of the queue once; taken again without its folder, it fails the sync.
   */
  method SyncChilds(d: Drive, queue: seq<Pending>, allLocal: map<Id, seq<NodeRef>>)
    returns (r: Outcome, allLocal': map<Id, seq<NodeRef>>)
    requires d.Valid()
    modifies d`store, d`nextRef, d`persisted, d`checkpoints, d`changed, d`index, d`polls
    ensures d.Valid()
    ensures allLocal.Keys <= allLocal'.Keys
    ensures d.polls <= old(d.polls) + 2 * |queue|
    ensures r.Fail? ==> r.error == StaleNode || r.error == NullPointer || r.error == MissingParent
    ensures r == Fail(MissingParent) ==> exists p :: p in queue && p.parentId !in allLocal'
    ensures r.Pass? && d.polls <= d.interruptAt ==> forall p :: p in queue ==> p.parentId in allLocal'
  {
    var q := queue;
    allLocal', r := allLocal, Pass;
    ghost var bound := Weight(queue);
    assert bound <= 2 * |queue|;
    while |q| > 0
      invariant d.Valid() && r == Pass
      invariant allLocal.Keys <= allLocal'.Keys
      invariant d.polls + Weight(q) <= old(d.polls) + bound
      invariant Covered(queue, q, allLocal'.Keys)
      decreases Weight(q)
    {
      ghost var head := q[0];
      var stop;
      r, stop, q, allLocal' := TakeItem(d, queue, q, allLocal');
      if stop || r.Fail? {
        assert head.parentId in ListedIn(queue);
        return;
      }
    }
  }

  /** A path that starts with one of the removed paths still does once more paths are removed. */
  lemma {:induction false} StartsWithAnyExtend(p: Path, rs: seq<Path>, ext: seq<Path>)
    requires StartsWithAny(p, rs)
    ensures StartsWithAny(p, rs + ext)
  {
    if |ext| > 0 {
      StartsWithAnyExtend(p, rs, ext[..|ext| - 1]);
      assert (rs + ext)[..|rs + ext| - 1] == rs + ext[..|ext| - 1];
    } else {
      assert rs + ext == rs;
    }
  }

  /** Every node keeps its path (removal only flags nodes; a saved chunk only sets the drive token). */
  ghost predicate SamePaths(s0: Store, s: Store) {
    forall h :: h in s0 ==> h in s && s[h].path == s0[h].path
  }

  /** No node appears or changes its path. */
  ghost predicate Stable(s0: Store, s: Store) {
    s.Keys == s0.Keys && SamePaths(s0, s)
  }

  /**
   * The body of the leftover loop of TraversingAlgorithm.syncFiles for one
   * node: a node below a path removed during this sync is skipped; any other
   * is removed, its path recorded as removed and a chunk saved.
   */
  method RemoveLeftover(d: Drive, h: NodeRef) returns (r: Outcome, gone: bool)
    requires d.Valid() && h in d.store
    modifies d`store, d`persisted, d`checkpoints, d`removedPaths
    ensures d.Valid() && SamePaths(old(d.store), d.store) && d.store.Keys == old(d.store).Keys
    ensures d.removedPaths == old(d.removedPaths) + if gone then [old(d.store)[h].path] else []
    ensures gone ==> !StartsWithAny(old(d.store)[h].path, old(d.removedPaths))
    ensures r.Pass? ==> (gone <==> !StartsWithAny(old(d.store)[h].path, old(d.removedPaths)))
    ensures !gone ==> d.store == old(d.store)
    ensures gone ==> !Live(d.store, h)
    ensures r.Pass? ==> StartsWithAny(old(d.store)[h].path, d.removedPaths)
    ensures r.Fail? ==> r.error == StaleNode || r.error == NullPointer
  {
    var path := d.store[h].path;
    gone := false;
    if StartsWithAny(path, d.removedPaths) {
      return Pass, false;
    }
    r := d.RemoveNode(h);
    if r.Fail? {
      return;
    }
    d.AddRemoved(path);
    gone := true;
    assert (d.removedPaths)[..|d.removedPaths| - 1] == old(d.removedPaths);
    r := d.SaveChunk();
  }

  /** The first `i` nodes of `l` lie below a removed path. */
  ghost predicate ListBelow(s0: Store, l: seq<NodeRef>, i: int, removed: seq<Path>) {
    forall j :: 0 <= j < i && j < |l| ==> l[j] in s0 && StartsWithAny(s0[l[j]].path, removed)
  }

  lemma {:induction false} ListBelowStep(s0: Store, l: seq<NodeRef>, i: nat, removed: seq<Path>, ext: seq<Path>)
    requires i < |l| && ListBelow(s0, l, i, removed)
    requires l[i] in s0 && StartsWithAny(s0[l[i]].path, removed + ext)
    ensures ListBelow(s0, l, i + 1, removed + ext)
  {
    forall j | 0 <= j < i
      ensures StartsWithAny(s0[l[j]].path, removed + ext)
    {
      StartsWithAnyExtend(s0[l[j]].path, removed, ext);
    }
  }

  /**
   * The inner leftover loop of TraversingAlgorithm.syncFiles over one list
   * of the index: afterwards every node of the list lies below a removed path.
   */
  method RemoveList(d: Drive, l: seq<NodeRef>) returns (r: Outcome)
    requires d.Valid() && forall h :: h in l ==> h in d.store
    modifies d`store, d`persisted, d`checkpoints, d`removedPaths
    ensures d.Valid() && SamePaths(old(d.store), d.store) && d.store.Keys == old(d.store).Keys
    ensures old(d.removedPaths) <= d.removedPaths
    ensures r.Pass? ==> forall h :: h in l ==> StartsWithAny(old(d.store)[h].path, d.removedPaths)
    ensures r.Fail? ==> r.error == StaleNode || r.error == NullPointer
  {
    ghost var s0 := d.store;
    r := Pass;
    var i := 0;
    while i < |l|
      invariant i <= |l| && d.Valid() && SamePaths(s0, d.store) && d.store.Keys == s0.Keys && r == Pass
      invariant old(d.removedPaths) <= d.removedPaths
      invariant ListBelow(s0, l, i, d.removedPaths)
    {
      ghost var before := d.removedPaths;
      var gone;
      r, gone := RemoveLeftover(d, l[i]);
      if r.Fail? {
        return;
      }
      ListBelowStep(s0, l, i, before, d.removedPaths[|before|..]);
      assert before + d.removedPaths[|before|..] == d.removedPaths;
      i := i + 1;
    }
  }

  /** The nodes of every list the given keys of the index lead to lie below a removed path. */
  ghost predicate AllBelowRemoved(idx: Index, ks: set<Id>, s: Store, removed: seq<Path>) {
    forall k, h :: k in ks && k in idx.keys && idx.keys[k] in idx.lists && h in idx.lists[idx.keys[k]] ==>
      h in s && StartsWithAny(s[h].path, removed)
  }

  lemma {:induction false} AllBelowRemovedExtend(idx: Index, ks: set<Id>, s: Store, removed: seq<Path>, ext: seq<Path>)
    requires AllBelowRemoved(idx, ks, s, removed)
    ensures AllBelowRemoved(idx, ks, s, removed + ext)
  {
    forall k, h | k in ks && k in idx.keys && idx.keys[k] in idx.lists && h in idx.lists[idx.keys[k]]
      ensures StartsWithAny(s[h].path, removed + ext)
    {
      StartsWithAnyExtend(s[h].path, removed, ext);
    }
  }

  /** One turn of the leftover loop: the list of key `k` is visited. */
  method VisitKey(d: Drive, ghost s0: Store, ghost visited: set<Id>, k: Id) returns (r: Outcome)
    requires d.Valid() && k in d.index.keys && Stable(s0, d.store)
    requires AllBelowRemoved(d.index, visited, s0, d.removedPaths)
    modifies d`store, d`persisted, d`checkpoints, d`removedPaths
    ensures d.Valid() && Stable(s0, d.store)
    ensures r.Pass? ==> AllBelowRemoved(d.index, visited + {k}, s0, d.removedPaths)
    ensures r.Fail? ==> r.error == StaleNode || r.error == NullPointer
  {
    ghost var before := d.removedPaths;
    ghost var s1 := d.store;
    var l := d.index.lists[d.index.keys[k]];
    r := RemoveList(d, l);
    if r.Pass? {
      AllBelowRemovedExtend(d.index, visited, s0, before, d.removedPaths[|before|..]);
      assert before + d.removedPaths[|before|..] == d.removedPaths;
      assert forall h :: h in l ==> h in s0 && StartsWithAny(s0[h].path, d.removedPaths);
    }
  }

  /** The interruption check, then the visit of key `k` unless interrupted. */
  method PollVisit(d: Drive, ghost s0: Store, ghost visited: set<Id>, k: Id) returns (r: Outcome, stop: bool)
    requires d.Valid() && k in d.index.keys && Stable(s0, d.store)
    requires AllBelowRemoved(d.index, visited, s0, d.removedPaths)
    modifies d`store, d`persisted, d`checkpoints, d`removedPaths, d`polls
    ensures d.Valid() && Stable(s0, d.store) && d.polls == old(d.polls) + 1
    ensures stop <==> old(d.polls) >= d.interruptAt
    ensures stop ==> r.Pass?
    ensures r.Pass? && !stop ==> AllBelowRemoved(d.index, visited + {k}, s0, d.removedPaths)
    ensures r.Fail? ==> r.error == StaleNode || r.error == NullPointer
  {
    stop := d.Poll();
    if stop {
      return Pass, true;
    }
    r := VisitKey(d, s0, visited, k);
  }

  /**
   * The leftover loop of TraversingAlgorithm.syncFiles over the index as it
   * stands: the lists of its keys are visited in the map's (unspecified)
   * order, the interruption being checked before each.
   */
  method VisitAll(d: Drive) returns (r: Outcome, interrupted: bool)
    requires d.Valid()
    modifies d`store, d`persisted, d`checkpoints, d`removedPaths, d`polls
    ensures d.Valid() && Stable(old(d.store), d.store) && old(d.polls) <= d.polls
    ensures interrupted ==> r.Pass? && d.polls > d.interruptAt
    ensures r.Pass? && !interrupted ==> AllBelowRemoved(d.index, d.index.keys.Keys, d.store, d.removedPaths)
    ensures r.Fail? ==> r.error == StaleNode || r.error == NullPointer
  {
    ghost var s0 := d.store;
    var todo := d.index.keys.Keys;
    ghost var visited: set<Id> := {};
    r, interrupted := Pass, false;
    while todo != {}
      invariant d.Valid() && Stable(s0, d.store) && r == Pass && old(d.polls) <= d.polls
      invariant todo <= d.index.keys.Keys && visited == d.index.keys.Keys - todo
      invariant AllBelowRemoved(d.index, visited, s0, d.removedPaths)
      decreases |todo|
    {
      var k :| k in todo;
      var stop;
      r, stop := PollVisit(d, s0, visited, k);
      if stop {
        return Pass, true;
      }
      if r.Fail? {
        return;
      }
      todo, visited := todo - {k}, visited + {k};
    }
    SamePathsBelowRemoved(d.index, visited, s0, d.store, d.removedPaths);
  }

  /**
   * The end of TraversingAlgorithm.syncFiles: the root's key is dropped from
   * the index, then every node the index still lists is removed unless it
   * lies below a path removed already.
   */
  method RemoveLeftovers(d: Drive, rootId: Id) returns (r: Outcome, interrupted: bool)
    requires d.Valid()
    modifies d`index, d`store, d`persisted, d`checkpoints, d`removedPaths, d`polls
    ensures d.Valid() && d.index == old(d.index).(keys := old(d.index.keys) - {rootId})
    ensures SamePaths(old(d.store), d.store) && old(d.polls) <= d.polls
    ensures interrupted ==> r.Pass? && d.polls > d.interruptAt
    ensures r.Pass? && !interrupted ==> AllBelowRemoved(d.index, d.index.keys.Keys, d.store, d.removedPaths)
    ensures r.Fail? ==> r.error == StaleNode || r.error == NullPointer
  {
    d.SetIndex(d.index.(keys := d.index.keys - {rootId}));
    r, interrupted := VisitAll(d);
  }

  lemma {:induction false} SamePathsBelowRemoved(idx: Index, ks: set<Id>, s0: Store, s: Store, removed: seq<Path>)
    requires AllBelowRemoved(idx, ks, s0, removed) && SamePaths(s0, s)
    ensures AllBelowRemoved(idx, ks, s, removed)
  {
  }

  /** The local nodes of every cloud id, as the index read from the store lists them. */
  method LoadLocal(d: Drive) returns (allLocal: map<Id, seq<NodeRef>>)
    requires d.Valid()
    modifies d`index, d`nextList
    ensures d.Valid() && d.index == ReadIndex(d.store, d.nextRef)
    ensures allLocal.Keys == d.index.keys.Keys
    ensures forall k :: k in allLocal ==> allLocal[k] == d.index.lists[d.index.keys[k]]
  {
    d.ReadLocalNodes();
    allLocal := map k | k in d.index.keys :: d.index.lists[d.index.keys[k]];
  }

  /**
   * TraversingAlgorithm.syncFiles: the index is read from the store, its
   * lists copied into `allLocal`, the listed items consumed, and the local
   * nodes no listing claimed removed. `known` is what `allLocal` ends with:
   * the ids with local nodes before the sync and the ids synced since.
   */
  method Traverse(d: Drive, rootId: Id, queue: seq<Pending>) returns (r: Outcome, ghost known: set<Id>)
    requires d.Valid()
    modifies d`store, d`nextRef, d`persisted, d`checkpoints, d`changed, d`index, d`nextList,
             d`removedPaths, d`polls
    ensures d.Valid()
    ensures ReadIndex(old(d.store), old(d.nextRef)).keys.Keys <= known
    ensures r.Fail? ==> r.error == StaleNode || r.error == NullPointer || r.error == MissingParent
    ensures r == Fail(MissingParent) ==> exists p :: p in queue && p.parentId !in known
    ensures r.Pass? && d.polls <= d.interruptAt ==>
              && (forall p :: p in queue ==> p.parentId in known)
              && rootId !in d.index.keys
              && AllBelowRemoved(d.index, d.index.keys.Keys, d.store, d.removedPaths)
  {
    var allLocal := LoadLocal(d);
    var found;
    r, found := SyncChilds(d, queue, allLocal);
    known := found.Keys;
    if r.Fail? {
      return;
    }
    var interrupted;
    r, interrupted := RemoveLeftovers(d, rootId);
  }
}
