/**
 * The change-log algorithm of the sync command (Sync.ChangesAlgorithm):
 * removal of a file's mirrors that are no longer filed remotely (deleteFile),
 * per-parent reconciliation of a created or updated object (updateFile), and
 * the loop over the change events (syncFiles).
 */
module Changes {
  import opened Wrappers
  import opened Remote
  import opened LocalStore
  import opened NodeIndex
  import opened LocalDrive
  import opened Seqs

  /**
   * deleteFile removes mirror `en` of a file: its local parent is a cloud
   * folder or the drive, and that parent's id is not among the file's remote
   * parents. A mirror under any other parent is skipped (logged).
   */
  predicate Doomed(s: Store, en: NodeRef, parentIds: set<Id>) {
    && en in s
    && var p := s[en].parent;
       p in s && (s[p].kind == CloudFolder || s[p].kind == DriveRoot) && s[p].id !in parentIds
  }

  /**
   * The walk of deleteFile over the file's list: the paths removed in order,
   * the mirrors kept in order, and, when a node turned out to be already
   * removed (InvalidItemStateException), that failure and the part of the
   * list not yet walked (the failing node first).
   */
  datatype Sweep = Sweep(roots: seq<Path>, kept: seq<NodeRef>, failure: Option<SyncError>, left: seq<NodeRef>)

  /** A walk either completes, or stops at a stale node that is the first of the part left. */
  predicate Settled(w: Sweep) {
    (w.failure.None? <==> |w.left| == 0) && (w.failure.Some? ==> w.failure.value == StaleNode)
  }

  /** One step of the walk, at mirror `en`, with the nodes removed so far applied to `s0`. */
  function SweepStep(s0: Store, w: Sweep, en: NodeRef, parentIds: set<Id>): (v: Sweep)
    requires en in s0 && Settled(w)
    ensures Settled(v)
    ensures |v.roots| + |v.kept| + |v.left| == |w.roots| + |w.kept| + |w.left| + 1
    ensures w.failure.Some? ==> v == w.(left := w.left + [en])
    ensures v.kept == w.kept || v.kept == w.kept + [en]
    ensures v.left == [] || v.left == w.left + [en]
  {
    if w.failure.Some? then w.(left := w.left + [en])
    else
      var p := s0[en].parent;
      if Gone(s0, en, w.roots) || (p in s0 && Gone(s0, p, w.roots)) then Sweep(w.roots, w.kept, Some(StaleNode), [en])
      else if Doomed(s0, en, parentIds) then w.(roots := w.roots + [s0[en].path])
      else w.(kept := w.kept + [en])
  }

  /** The walk over the first `n` mirrors of `ex`. */
  function SweepList(s0: Store, ex: seq<NodeRef>, parentIds: set<Id>, n: nat): (w: Sweep)
    requires n <= |ex| && forall h :: h in ex ==> h in s0
    ensures |w.roots| + |w.kept| + |w.left| == n
    ensures Settled(w)
  {
    if n == 0 then Sweep([], [], None, [])
    else SweepStep(s0, SweepList(s0, ex, parentIds, n - 1), ex[n - 1], parentIds)
  }

  /**
   * A walk that completes removes exactly the doomed mirrors, by their paths,
   * and keeps the others: the multi-filing rule of deleteFile.
   */
  lemma {:induction false} SweepDecides(s0: Store, ex: seq<NodeRef>, parentIds: set<Id>, n: nat, j: nat)
    requires n <= |ex| && forall g :: g in ex ==> g in s0
    requires SweepList(s0, ex, parentIds, n).failure.None? && j < n
    ensures var w := SweepList(s0, ex, parentIds, n);
            && (forall h :: h in w.kept ==> !Doomed(s0, h, parentIds))
            && (ex[j] in w.kept <==> !Doomed(s0, ex[j], parentIds))
            && (Doomed(s0, ex[j], parentIds) ==> s0[ex[j]].path in w.roots)
  {
    var w := SweepList(s0, ex, parentIds, n - 1);
    var v := SweepList(s0, ex, parentIds, n);
    var en := ex[n - 1];
    assert w.failure.None?;
    if n > 1 {
      SweepDecides(s0, ex, parentIds, n - 1, if j < n - 1 then j else 0);
    }
    if Doomed(s0, en, parentIds) {
      assert v == w.(roots := w.roots + [s0[en].path]);
    } else {
      assert v == w.(kept := w.kept + [en]);
    }
  }

  /** The walk keeps, and leaves, only mirrors of the list. */
  lemma {:induction false} SweepMembers(s0: Store, ex: seq<NodeRef>, parentIds: set<Id>, n: nat)
    requires n <= |ex| && forall g :: g in ex ==> g in s0
    ensures var w := SweepList(s0, ex, parentIds, n);
            forall h :: h in w.kept + w.left ==> h in ex
  {
    if n > 0 {
      SweepMembers(s0, ex, parentIds, n - 1);
    }
  }

  /** The walk stops at the first stale node: a failure after `i` mirrors is the failure of the first `n`. */
  lemma {:induction false} SweepFailureSticks(s0: Store, ex: seq<NodeRef>, parentIds: set<Id>, i: nat, n: nat)
    requires i <= n <= |ex| && forall g :: g in ex ==> g in s0
    requires SweepList(s0, ex, parentIds, i).failure.Some?
    ensures var w := SweepList(s0, ex, parentIds, i);
            SweepList(s0, ex, parentIds, n) == w.(left := w.left + ex[i..n])
  {
    var w := SweepList(s0, ex, parentIds, i);
    if n == i {
      assert w.left + ex[i..n] == w.left;
    } else {
      SweepFailureSticks(s0, ex, parentIds, i, n - 1);
      assert (w.left + ex[i..n - 1]) + [ex[n - 1]] == w.left + ex[i..n];
    }
  }

  /** One more mirror walked, read on the store as the walk left it. */
  lemma {:induction false} SweepAdvance(s0: Store, ex: seq<NodeRef>, parentIds: set<Id>, i: nat, roots: seq<Path>, kept: seq<NodeRef>)
    requires i < |ex| && forall g :: g in ex ==> g in s0
    requires SweepList(s0, ex, parentIds, i) == Sweep(roots, kept, None, [])
    ensures var s := RemoveRounds(s0, roots);
            var en := ex[i];
            var p := s[en].parent;
            SweepList(s0, ex, parentIds, i + 1) ==
              if s[en].removed || (p in s && s[p].removed) then Sweep(roots, kept, Some(StaleNode), [en])
              else if Doomed(s, en, parentIds) then Sweep(roots + [s[en].path], kept, None, [])
              else Sweep(roots, kept + [en], None, [])
  {
    var en := ex[i];
    var p := s0[en].parent;
    RemoveRoundsRemoves(s0, roots, en);
    if p in s0 {
      RemoveRoundsRemoves(s0, roots, p);
    }
  }

  /** A walk that stops at mirror `i` leaves `i` and everything after it. */
  lemma {:induction false} SweepStops(s0: Store, ex: seq<NodeRef>, parentIds: set<Id>, i: nat, roots: seq<Path>, kept: seq<NodeRef>)
    requires i < |ex| && forall g :: g in ex ==> g in s0
    requires SweepList(s0, ex, parentIds, i + 1) == Sweep(roots, kept, Some(StaleNode), [ex[i]])
    ensures SweepList(s0, ex, parentIds, |ex|) == Sweep(roots, kept, Some(StaleNode), ex[i..])
  {
    SweepFailureSticks(s0, ex, parentIds, i + 1, |ex|);
    ConsSlice(ex, i);
  }

  /** PruneList(a + b) prunes each part. */
  lemma {:induction false} PruneListAppend(s: Store, a: seq<NodeRef>, b: seq<NodeRef>, prefix: Path)
    requires forall h :: h in a + b ==> h in s
    ensures PruneList(s, a + b, prefix) == PruneList(s, a, prefix) + PruneList(s, b, prefix)
  {
    if |a| == 0 {
      assert a + b == b;
    } else {
      assert (a + b)[0] == a[0];
      assert (a + b)[1..] == a[1..] + b;
      PruneListAppend(s, a[1..], b, prefix);
      if !StartsWith(s[a[0]].path, prefix) {
        assert [a[0]] + (PruneList(s, a[1..], prefix) + PruneList(s, b, prefix))
            == ([a[0]] + PruneList(s, a[1..], prefix)) + PruneList(s, b, prefix);
      }
    }
  }

  /** The iterator loop over one list of the index dropping the nodes whose path starts with `prefix`. */
  method FilterList(s: Store, l: seq<NodeRef>, prefix: Path) returns (r: seq<NodeRef>)
    requires forall h :: h in l ==> h in s
    ensures r == PruneList(s, l, prefix)
  {
    r := [];
    var i := 0;
    while i < |l|
      invariant i <= |l|
      invariant r == PruneList(s, l[..i], prefix)
    {
      assert l[..i + 1] == l[..i] + [l[i]];
      PruneListAppend(s, l[..i], [l[i]], prefix);
      if !StartsWith(s[l[i]].path, prefix) {
        r := r + [l[i]];
      }
      i := i + 1;
    }
    assert l[..i] == l;
  }

  /** The visit of key `k` by the inner loop of deleteFile: the list of `k` pruned, and `k` dropped when it is left empty. */
  method VisitKey(s: Store, idx0: Index, existing: ListRef, prefix: Path, todo: set<Id>, idx: Index, k: Id)
      returns (idx': Index)
    requires WellFormed(idx0, s) && k in todo && todo <= idx0.keys.Keys
    requires idx == PartialPrune(s, idx0, existing, prefix, todo)
    ensures idx' == PartialPrune(s, idx0, existing, prefix, todo - {k})
  {
    PartialPruneStep(s, idx0, existing, prefix, todo, k);
    var l := idx.keys[k];
    idx' := idx;
    if l != existing {
      var pruned := FilterList(s, idx.lists[l], prefix);
      idx' := Index(if |pruned| == 0 then idx.keys - {k} else idx.keys, idx.lists[l := pruned]);
    }
  }

  /**
   * The inner loop of deleteFile for one removed path: over every entry of
   * `nodes` (an aliased list is met once per key), except the file's own list
   * `existing`, drop the nodes below the path, and drop the entry when its
   * list is left empty.
   */
  method PruneEntries(s: Store, idx0: Index, existing: ListRef, prefix: Path) returns (idx: Index)
    requires WellFormed(idx0, s)
    ensures idx == PruneIndex(s, idx0, existing, prefix)
  {
    idx := idx0;
    var todo := idx.keys.Keys;
    PartialPruneStart(s, idx0, existing, prefix);
    while todo != {}
      invariant todo <= idx0.keys.Keys
      invariant idx == PartialPrune(s, idx0, existing, prefix, todo)
      decreases |todo|
    {
      var k :| k in todo;
      idx := VisitKey(s, idx0, existing, prefix, todo, idx, k);
      todo := todo - {k};
    }
  }

  /** The same loop run on the index of the drive. */
  method PruneOthers(d: Drive, existing: ListRef, prefix: Path)
    requires d.Valid()
    modifies d`index
    ensures d.Valid()
    ensures d.index == PruneIndex(d.store, old(d.index), existing, prefix)
  {
    var idx := PruneEntries(d.store, d.index, existing, prefix);
    d.SetIndex(idx);
  }

  /** One more removal round on the store. */
  lemma {:induction false} RoundsStepStore(s0: Store, roots: seq<Path>, p: Path)
    ensures RemoveRounds(s0, roots + [p]) == RemoveSubtree(RemoveRounds(s0, roots), p)
  {
    PrefixOfSnoc(roots, p);
  }

  /** The index pruned so far only refers to nodes of the store removed so far. */
  lemma {:induction false} RoundsWellFormed(s0: Store, idx0: Index, e: ListRef, roots: seq<Path>)
    requires WellFormed(idx0, s0)
    ensures WellFormed(PruneRounds(s0, idx0, e, roots), RemoveRounds(s0, roots))
  {
  }

  /** One more removal round on the index, read on the store removed so far. */
  lemma {:induction false} RoundsStepIndex(s0: Store, idx0: Index, e: ListRef, roots: seq<Path>, p: Path)
    requires WellFormed(idx0, s0)
    ensures WellFormed(PruneRounds(s0, idx0, e, roots), RemoveRounds(s0, roots))
    ensures PruneRounds(s0, idx0, e, roots + [p]) ==
            PruneIndex(RemoveRounds(s0, roots), PruneRounds(s0, idx0, e, roots), e, p)
  {
    PrefixOfSnoc(roots, p);
    var s := RemoveRounds(s0, roots);
    var idx := PruneRounds(s0, idx0, e, roots);
    RoundsWellFormed(s0, idx0, e, roots);
    PruneIndexSamePaths(s, s0, idx, e, p);
  }

  /**
   * The removal of one doomed mirror, after the walk removed `roots`: the
   * nodes below its path leave the other lists of the index, the node is
   * removed with its subtree, and its path is recorded as removed.
   */
  method RemoveMirror(d: Drive, e: ListRef, en: NodeRef, ghost s0: Store, ghost idx0: Index, ghost roots: seq<Path>)
    requires d.Valid() && Live(d.store, en) && WellFormed(idx0, s0)
    requires d.store == RemoveRounds(s0, roots) && d.index == PruneRounds(s0, idx0, e, roots)
    modifies d`store, d`index, d`removedPaths
    ensures d.Valid()
    ensures var path := old(d.store)[en].path;
            && d.store == RemoveRounds(s0, roots + [path])
            && d.index == PruneRounds(s0, idx0, e, roots + [path])
            && d.removedPaths == old(d.removedPaths) + [path]
  {
    var enpath := d.store[en].path;
    RoundsStepStore(s0, roots, enpath);
    RoundsStepIndex(s0, idx0, e, roots, enpath);
    PruneOthers(d, e, enpath);
    var removed := d.RemoveNode(en);
    d.AddRemoved(enpath);
  }

  /** The state of the drive once the walk has removed `roots`. */
  ghost predicate Swept(d: Drive, s0: Store, idx0: Index, e: ListRef, removed0: seq<Path>, roots: seq<Path>)
    reads d
    requires WellFormed(idx0, s0)
  {
    && d.store == RemoveRounds(s0, roots)
    && d.index == PruneRounds(s0, idx0, e, roots)
    && d.removedPaths == removed0 + roots
  }

  /** One step of the walk of deleteFile, at mirror `i`. */
  method SweepOne(d: Drive, e: ListRef, ex: seq<NodeRef>, parentIds: set<Id>, i: nat,
                  ghost s0: Store, ghost idx0: Index, ghost removed0: seq<Path>, ghost roots: seq<Path>,
                  kept: seq<NodeRef>)
      returns (stale: bool, ghost roots': seq<Path>, kept': seq<NodeRef>)
    requires d.Valid() && WellFormed(idx0, s0)
    requires i < |ex| && forall h :: h in ex ==> h in s0
    requires SweepList(s0, ex, parentIds, i) == Sweep(roots, kept, None, [])
    requires Swept(d, s0, idx0, e, removed0, roots)
    modifies d`store, d`index, d`removedPaths
    ensures d.Valid()
    ensures stale ==> roots' == roots && kept' == kept
    ensures stale ==> SweepList(s0, ex, parentIds, i + 1) == Sweep(roots, kept, Some(StaleNode), [ex[i]])
    ensures !stale ==> SweepList(s0, ex, parentIds, i + 1) == Sweep(roots', kept', None, [])
    ensures Swept(d, s0, idx0, e, removed0, roots')
  {
    SweepAdvance(s0, ex, parentIds, i, roots, kept);
    var en := ex[i];
    var p := d.store[en].parent;
    if d.store[en].removed || (p in d.store && d.store[p].removed) {
      return true, roots, kept;
    }
    stale := false;
    if Doomed(d.store, en, parentIds) {
      var path := d.store[en].path;
      AppendAssoc(removed0, roots, path);
      RemoveMirror(d, e, en, s0, idx0, roots);
      roots' := roots + [path];
      kept' := kept;
    } else {
      roots' := roots;
      kept' := kept + [en];
    }
  }

  /** The walk of deleteFile over the file's list `ex`, the list of `e`. */
  method SweepMirrors(d: Drive, e: ListRef, ex: seq<NodeRef>, parentIds: set<Id>)
      returns (r: Outcome, kept: seq<NodeRef>, left: seq<NodeRef>)
    requires d.Valid() && forall h :: h in ex ==> h in d.store
    modifies d`store, d`index, d`removedPaths
    ensures d.Valid()
    ensures var w := SweepList(old(d.store), ex, parentIds, |ex|);
            && r == (if w.failure.Some? then Fail(w.failure.value) else Pass)
            && kept == w.kept && left == w.left
            && d.store == RemoveRounds(old(d.store), w.roots)
            && d.index == PruneRounds(old(d.store), old(d.index), e, w.roots)
            && d.removedPaths == old(d.removedPaths) + w.roots
    ensures forall h :: h in kept + left ==> h in d.store
  {
    SweepMembers(d.store, ex, parentIds, |ex|);
    ghost var s0 := d.store;
    ghost var idx0 := d.index;
    ghost var removed0 := d.removedPaths;
    ghost var roots: seq<Path> := [];
    kept := [];
    left := [];
    var i := 0;
    r := Pass;
    while i < |ex|
      invariant i <= |ex|
      invariant SweepList(s0, ex, parentIds, i) == Sweep(roots, kept, None, [])
      invariant Swept(d, s0, idx0, e, removed0, roots)
      invariant d.Valid()
    {
      var stale;
      stale, roots, kept := SweepOne(d, e, ex, parentIds, i, s0, idx0, removed0, roots, kept);
      if stale {
        SweepStops(s0, ex, parentIds, i, roots, kept);
        return Fail(StaleNode), kept, ex[i..];
      }
      i := i + 1;
    }
  }

  /** deleteFile for a file the index knows, its list `e` holding `ex`. */
  method DeleteListed(d: Drive, e: ListRef, ex: seq<NodeRef>, parentIds: set<Id>) returns (r: Outcome)
    requires d.Valid() && e in d.index.lists && d.index.lists[e] == ex
    modifies d`store, d`index, d`removedPaths
    ensures d.Valid()
    ensures var w := SweepList(old(d.store), ex, parentIds, |ex|);
            && r == (if w.failure.Some? then Fail(w.failure.value) else Pass)
            && d.store == RemoveRounds(old(d.store), w.roots)
            && d.removedPaths == old(d.removedPaths) + w.roots
            && var pruned := PruneRounds(old(d.store), old(d.index), e, w.roots);
               d.index == pruned.(lists := pruned.lists[e := w.kept + w.left])
  {
    var kept, left;
    r, kept, left := SweepMirrors(d, e, ex, parentIds);
    d.SetList(e, kept + left);
  }

  /**
   * What deleteFile(fileId, parentIds) does to the store `s0`, the index `i0`
   * and the removed paths `rp0`, giving the outcome `r` and the new `s1`, `i1`,
   * `rp1`: an unknown file changes nothing; otherwise the walk of its list
   * (`SweepList`) decides the outcome, the subtrees removed, the paths
   * reported, the other lists pruned of them, and the file's new list.
   */
  ghost predicate Deleted(s0: Store, i0: Index, rp0: seq<Path>, fileId: Id, parentIds: set<Id>,
                    r: Outcome, s1: Store, i1: Index, rp1: seq<Path>)
    requires WellFormed(i0, s0)
  {
    && (fileId !in i0.keys ==> r == Pass && s1 == s0 && i1 == i0 && rp1 == rp0)
    && (fileId in i0.keys ==>
          var e := i0.keys[fileId];
          var w := SweepList(s0, i0.lists[e], parentIds, |i0.lists[e]|);
          && r == (if w.failure.Some? then Fail(w.failure.value) else Pass)
          && s1 == RemoveRounds(s0, w.roots)
          && rp1 == rp0 + w.roots
          && var pruned := PruneRounds(s0, i0, e, w.roots);
             i1 == pruned.(lists := pruned.lists[e := w.kept + w.left]))
  }

  /**
   * deleteFile(fileId, parentIds): when the index knows the file, walk its
   * list; each doomed mirror is removed with its subtree, its path recorded
   * as removed, the nodes below it dropped from every other list of the index
   * and the mirror dropped from the file's list; the others are kept. The
   * file's key stays in the index even when its list is left empty.
   */
  method DeleteFile(d: Drive, fileId: Id, parentIds: set<Id>) returns (r: Outcome)
    requires d.Valid()
    modifies d`store, d`index, d`removedPaths
    ensures d.Valid()
    ensures Deleted(old(d.store), old(d.index), old(d.removedPaths), fileId, parentIds, r, d.store, d.index, d.removedPaths)
  {
    if fileId !in d.index.keys {
      return Pass;
    }
    var e := d.index.keys[fileId];
    r := DeleteListed(d, e, d.index.lists[e], parentIds);
  }
}
