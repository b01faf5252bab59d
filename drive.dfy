/**
 * The drive and the state of the running sync command: the local store and
 * the session's last saved state, the node index `nodes`, the changed and
 * removed logs, the local changes the engine consumes, the cancellation flag
 * and the change-log checkpoint hook (preSaveChunk).
 */
module LocalDrive {
  import opened Wrappers
  import opened Remote
  import opened MimeTypes
  import opened LocalStore
  import opened Reconcile
  import opened NodeIndex

  /** A live node the drive mirrors: the drive node, a cloud folder or a cloud file. */
  predicate IsCloudNode(s: Store, h: NodeRef) {
    Live(s, h) && s[h].kind != Plain
  }

  /** A live child of `parent` at the path a child named `name` takes: what openFile/openFolder open. */
  predicate ChildAt(s: Store, parent: NodeRef, name: string, h: NodeRef) {
    parent in s && Live(s, h) && s[h].parent == parent && s[h].path == ChildPath(s[parent].path, name)
  }

  /** The node handles in creation order, the order the drive's nodes are read in. */
  function Handles(n: nat): (hs: seq<NodeRef>)
    ensures |hs| == n
    ensures forall i :: 0 <= i < n ==> hs[i] == i
  {
    seq(n, i => i)
  }

  /** The ids of the cloud nodes among `hs`, in their order, repeated as often as met. */
  function CloudIds(s: Store, hs: seq<NodeRef>): (ids: seq<Id>)
    ensures forall x :: x in ids <==> exists h :: h in hs && IsCloudNode(s, h) && s[h].id == x
  {
    if |hs| == 0 then []
    else
      var rest := CloudIds(s, hs[1..]);
      assert forall h :: h in hs <==> h == hs[0] || h in hs[1..];
      if IsCloudNode(s, hs[0]) then [s[hs[0]].id] + rest else rest
  }

  /** The cloud nodes among `hs` with the given id, in their order. */
  function Members(s: Store, hs: seq<NodeRef>, id: Id): (r: seq<NodeRef>)
    ensures forall h :: h in r <==> h in hs && IsCloudNode(s, h) && s[h].id == id
  {
    if |hs| == 0 then []
    else
      var rest := Members(s, hs[1..], id);
      assert forall h :: h in hs <==> h == hs[0] || h in hs[1..];
      if IsCloudNode(s, hs[0]) && s[hs[0]].id == id then [hs[0]] + rest else rest
  }

  /**
   * The entries the base readNodes gathers: the drive's cloud nodes grouped by
   * id, ids in the order their first node is met.
   */
  function Grouped(s: Store, hs: seq<NodeRef>): (g: seq<(Id, seq<NodeRef>)>)
    ensures forall i, j :: 0 <= i < j < |g| ==> g[i].0 != g[j].0
    ensures forall i :: 0 <= i < |g| ==> g[i].1 == Members(s, hs, g[i].0) && |g[i].1| > 0
    ensures forall h :: h in hs && IsCloudNode(s, h) ==> exists i :: 0 <= i < |g| && g[i].0 == s[h].id
  {
    var ids := Distinct(CloudIds(s, hs));
    var g := seq(|ids|, i requires 0 <= i < |ids| => (ids[i], Members(s, hs, ids[i])));
    assert forall i :: 0 <= i < |g| ==> ids[i] in CloudIds(s, hs);
    assert forall h :: h in hs && IsCloudNode(s, h) ==> s[h].id in ids;
    assert forall i :: 0 <= i < |g| ==> g[i].0 == ids[i];
    g
  }

  /** The entries super.readNodes returns for the drive, all of whose nodes are in the store. */
  function BaseEntries(s: Store, n: nat): (g: seq<(Id, seq<NodeRef>)>)
    ensures forall i, h :: 0 <= i < |g| && h in g[i].1 ==> h in s
  {
    Grouped(s, Handles(n))
  }

  /** The original entries of `g` keyed to the list references 0, 1, ... */
  function Entries(g: seq<(Id, seq<NodeRef>)>): (e: seq<(Id, ListRef)>)
    ensures |e| == |g|
    ensures forall i :: 0 <= i < |g| ==> e[i] == (g[i].0, i)
  {
    seq(|g|, i requires 0 <= i < |g| => (g[i].0, i))
  }

  function ListsOf(g: seq<(Id, seq<NodeRef>)>): (lists: map<ListRef, seq<NodeRef>>)
    ensures forall l: int :: l in lists <==> 0 <= l < |g|
    ensures forall l :: l in lists ==> lists[l] == g[l].1
  {
    map l: ListRef | l < |g| :: g[l].1
  }

  /** One more original entry rebuilt is one more entry's puts. */
  lemma {:induction false} ReadStep(s: Store, g: seq<(Id, seq<NodeRef>)>, i: nat)
    requires i < |g|
    requires forall l, h :: l in ListsOf(g) && h in ListsOf(g)[l] ==> h in s
    ensures forall h :: h in g[i].1 ==> h in s
    ensures Rebuild(s, ListsOf(g), Entries(g)[..i + 1]) ==
            PutNodes(s, Rebuild(s, ListsOf(g), Entries(g)[..i]), g[i].0, g[i].1, i)
  {
    var next := Entries(g)[..i + 1];
    assert next[..i] == Entries(g)[..i];
    assert ListsOf(g)[i] == g[i].1;
  }

  /** The index readLocalNodes builds: one list per id, shared by the aliases readNodes adds. */
  ghost function ReadIndex(s: Store, n: nat): Index {
    var g := BaseEntries(s, n);
    assert forall l, h :: l in ListsOf(g) && h in ListsOf(g)[l] ==> h in s;
    Index(Rebuild(s, ListsOf(g), Entries(g)), ListsOf(g))
  }

  /**
   * The inner loop of readNodes for one original entry: for each node, a file's
   * version series and checked-out ids, then the entry's own key, all put to
   * the entry's list.
   */
  method PutEntry(s: Store, keys: map<Id, ListRef>, key: Id, nodes: seq<NodeRef>, l: ListRef)
    returns (r: map<Id, ListRef>)
    requires forall h :: h in nodes ==> h in s
    ensures r == PutNodes(s, keys, key, nodes, l)
  {
    r := keys;
    var j := 0;
    while j < |nodes|
      invariant 0 <= j <= |nodes|
      invariant r == PutNodes(s, keys, key, nodes[..j], l)
    {
      var n := nodes[j];
      if s[n].kind == CloudFile {
        if s[n].seriesId.Some? {
          r := r[s[n].seriesId.value := l];
        }
        if s[n].checkedOutId.Some? {
          r := r[s[n].checkedOutId.value := l];
        }
      }
      r := r[key := l];
      assert nodes[..j + 1][..j] == nodes[..j];
      j := j + 1;
    }
    assert nodes[..|nodes|] == nodes;
  }

  /** The outer loop of readNodes: every original entry's puts, in the entries' order. */
  method RebuildKeys(s: Store, g: seq<(Id, seq<NodeRef>)>) returns (keys: map<Id, ListRef>)
    requires forall i, h :: 0 <= i < |g| && h in g[i].1 ==> h in s
    ensures forall l, h :: l in ListsOf(g) && h in ListsOf(g)[l] ==> h in s
    ensures keys == Rebuild(s, ListsOf(g), Entries(g))
  {
    var lists := ListsOf(g);
    ghost var entries := Entries(g);
    assert forall l, h :: l in lists && h in lists[l] ==> h in s;
    keys := map[];
    var i := 0;
    while i < |g|
      invariant 0 <= i <= |g|
      invariant keys == Rebuild(s, lists, entries[..i])
    {
      ReadStep(s, g, i);
      keys := PutEntry(s, keys, g[i].0, g[i].1, i);
      i := i + 1;
    }
    assert entries[..|g|] == entries;
  }

  class Drive {
    /** The drive's local nodes, as the session currently sees them. */
    var store: Store
    /** The nodes as last saved; a node absent here is new (Node.isNew). */
    var persisted: Store
    var nextRef: NodeRef
    /** The drive node. */
    const driveRef: NodeRef
    /** `nodes`: remote id (or alias) to the local nodes mirroring it. */
    var index: Index
    var nextList: ListRef
    /** addChanged: the files this command created or updated, in order. */
    var changed: seq<LocalFile>
    /** addRemoved: the paths this command removed, in order. */
    var removedPaths: seq<Path>
    /** Local removals and updates not yet seen coming back from the repository (hasRemoved/hasUpdated). */
    var localRemoved: set<Id>
    var localUpdated: set<Id>
    /** The drive's sync position (setChangeId), the time the last sync started. */
    var changeId: int
    /** Cancellation: the thread counts as interrupted from the `interruptAt`-th check on. */
    var polls: nat
    const interruptAt: nat
    /** Whether a change-log run is attached to the command, and the last token its iterator returned. */
    var changesActive: bool
    var changesLast: Option<string>
    /** The drive token as each saved chunk left it, in order. */
    ghost var checkpoints: seq<Option<string>>
    const resolver: MimeResolver

    ghost predicate Valid()
      reads this`store, this`nextRef, this`persisted, this`index, this`nextList
    {
      && driveRef in store && store[driveRef].kind == DriveRoot
      && (forall h :: h in store ==> h < nextRef)
      && persisted.Keys <= store.Keys
      && (forall h :: h in persisted ==> persisted[h].kind == store[h].kind)
      && WellFormed(index, store)
      && (forall l :: l in index.lists ==> l < nextList)
    }

    /** Thread.currentThread().isInterrupted(). */
    method Poll() returns (interrupted: bool)
      modifies this`polls
      ensures polls == old(polls) + 1
      ensures interrupted <==> old(polls) >= interruptAt
    {
      interrupted := polls >= interruptAt;
      polls := polls + 1;
    }

    /**
     * saveChunk with the preSaveChunk hook of Sync: while a change-log run is
     * attached, the drive token is first set to the last token its iterator
     * returned (a null token is dereferenced); then the session is saved.
     */
    method SaveChunk() returns (r: Outcome)
      requires Valid()
      modifies this`store, this`persisted, this`checkpoints
      ensures Valid()
      ensures changesActive && changesLast.None? ==> r == Fail(NullPointer)
      ensures changesActive && changesLast.Some? && !Live(old(store), driveRef) ==> r == Fail(StaleNode)
      ensures r.Fail? ==> store == old(store) && persisted == old(persisted) && checkpoints == old(checkpoints)
      ensures r.Pass? <==> !changesActive || (changesLast.Some? && Live(old(store), driveRef))
      ensures r.Pass? ==> store == (if changesActive
                                    then old(store)[driveRef := old(store)[driveRef].(token := changesLast)]
                                    else old(store))
      ensures r.Pass? ==> persisted == store && checkpoints == old(checkpoints) + [store[driveRef].token]
    {
      if changesActive {
        if changesLast.None? {
          return Fail(NullPointer);
        }
        if store[driveRef].removed {
          return Fail(StaleNode);
        }
        store := store[driveRef := store[driveRef].(token := changesLast)];
      }
      persisted := store;
      checkpoints := checkpoints + [store[driveRef].token];
      r := Pass;
    }

    /** setChangeToken(driveNode, t): the drive node's cmiscd:changeToken becomes `t`. */
    method SetChangeToken(t: string) returns (r: Outcome)
      requires Valid()
      modifies this`store
      ensures Valid()
      ensures r.Pass? <==> Live(old(store), driveRef)
      ensures r.Pass? ==> store == old(store)[driveRef := old(store)[driveRef].(token := Some(t))]
      ensures r.Fail? ==> r.error == StaleNode && store == old(store)
    {
      if store[driveRef].removed {
        return Fail(StaleNode);
      }
      store := store[driveRef := store[driveRef].(token := Some(t))];
      r := Pass;
    }

    /**
     * The close of a connect or a sync: the drive node takes `token`
     * (setChangeToken) and the drive the time `now` the command started
     * (setChangeId).
     */
    method Commit(token: string, now: int) returns (r: Outcome)
      requires Valid()
      modifies this`store, this`changeId
      ensures Valid()
      ensures r.Pass? <==> Live(old(store), driveRef)
      ensures r.Pass? ==> store[driveRef].token == Some(token) && changeId == now
      ensures r.Fail? ==> r.error == StaleNode && store == old(store) && changeId == old(changeId)
    {
      r := SetChangeToken(token);
      if r.Pass? {
        changeId := now;
      }
    }

    /**
     * rollback(driveNode): every saved node returns to its saved state; nodes
     * created since the last save are gone (their handles turn stale).
     */
    method Rollback()
      requires Valid()
      modifies this`store
      ensures Valid()
      ensures store.Keys == old(store).Keys
      ensures forall h :: h in persisted ==> store[h] == persisted[h]
      ensures forall h :: h in store && h !in persisted ==> !Live(store, h)
    {
      store := map h | h in store :: if h in persisted then persisted[h] else store[h].(removed := true);
    }

    /** addRemoved(path): the command reports the path as removed. */
    method AddRemoved(path: Path)
      requires Valid()
      modifies this`removedPaths
      ensures Valid() && removedPaths == old(removedPaths) + [path]
    {
      removedPaths := removedPaths + [path];
    }

    /** addChanged(file): the command reports the file as created or updated. */
    method AddChanged(f: LocalFile)
      requires Valid()
      modifies this`changed
      ensures Valid() && changed == old(changed) + [f]
    {
      changed := changed + [f];
    }

    /** The index changed in place into `idx`, over lists already made. */
    method SetIndex(idx: Index)
      requires Valid() && WellFormed(idx, store) && forall l :: l in idx.lists ==> l < nextList
      modifies this`index
      ensures Valid() && index == idx
    {
      index := idx;
    }

    /** The list `ref` of the index, which every key on it shares, now holds `l`. */
    method SetList(ref: ListRef, l: seq<NodeRef>)
      requires Valid() && ref in index.lists && forall h :: h in l ==> h in store
      modifies this`index
      ensures Valid()
      ensures index == old(index).(lists := old(index.lists)[ref := l])
    {
      index := index.(lists := index.lists[ref := l]);
    }

    /** Node.remove(): removing a node already removed is a repository error. */
    method RemoveNode(h: NodeRef) returns (r: Outcome)
      requires Valid() && h in store
      modifies this`store
      ensures Valid()
      ensures r.Pass? <==> Live(old(store), h)
      ensures r.Pass? ==> store == RemoveSubtree(old(store), old(store)[h].path)
      ensures r.Fail? ==> r.error == StaleNode && store == old(store)
    {
      if store[h].removed {
        return Fail(StaleNode);
      }
      store := RemoveSubtree(store, store[h].path);
      r := Pass;
    }

    /**
     * moveFile(id, name, node, parent): the node goes under `parent` with the
     * title `name`; moving a removed node, or under a removed parent, fails.
     */
    method MoveFile(h: NodeRef, parent: NodeRef, name: string) returns (r: Outcome)
      requires Valid() && h in store && parent in store
      modifies this`store
      ensures Valid()
      ensures r.Pass? <==> Live(old(store), h) && Live(old(store), parent)
      ensures r.Pass? ==> store == MoveNode(old(store), h, parent, ChildPath(old(store)[parent].path, name), name)
      ensures r.Fail? ==> r.error == StaleNode && store == old(store)
    {
      if store[h].removed || store[parent].removed {
        return Fail(StaleNode);
      }
      store := MoveNode(store, h, parent, ChildPath(store[parent].path, name), name);
      r := Pass;
    }

    /** copyNode(node, parent): `src` and its live subtree copied under `parent`, with fresh handles; both must be live. */
    method CopyFile(src: NodeRef, parent: NodeRef) returns (r: Result<NodeRef>)
      requires Valid() && src in store && parent in store
      modifies this`store, this`nextRef
      ensures Valid()
      ensures r.Ok? <==> Live(old(store), src) && Live(old(store), parent)
      ensures r.Ok? ==> && r.value == old(nextRef) && nextRef == 2 * old(nextRef) + 1
                        && store == CopyNode(old(store), src, parent, old(store)[parent].path, old(nextRef))
      ensures r.Err? ==> r.error == StaleNode && store == old(store) && nextRef == old(nextRef)
    {
      if store[src].removed || store[parent].removed {
        return Err(StaleNode);
      }
      r := Ok(nextRef);
      store := CopyNode(store, src, parent, store[parent].path, nextRef);
      nextRef := 2 * nextRef + 1;
    }

    /** The record openFile/openFolder creates for `item` under `parent` before it is initialised. */
    static function Created(s: Store, parent: NodeRef, item: RemoteObject): (n: LocalNode)
      requires parent in s
      ensures n.parent == parent && n.path == ChildPath(s[parent].path, item.name) && !n.removed && !n.ignored
      ensures n.kind == (if item.kind == Folder then CloudFolder else CloudFile)
    {
      LocalNode(ChildPath(s[parent].path, item.name), parent,
                if item.kind == Folder then CloudFolder else CloudFile,
                false, false, item.id, item.name, None, item.modified, "", None, None)
    }

    /**
     * updateItem(api, item, parent, node): open (or create) the node of `item`
     * under `parent` unless one is given, test it for drift, and overwrite its
     * mirrored fields only when it drifted. A folder is always reported changed.
     */
    method UpdateItem(item: RemoteObject, parent: NodeRef, node: Option<NodeRef>) returns (r: Result<LocalFile>)
      requires Valid()
      modifies this`store, this`nextRef
      ensures Valid()
      ensures node.Some? ==> (r.Err? <==> !Live(old(store), node.value))
      ensures node.None? ==> (r.Err? <==> !Live(old(store), parent))
      ensures r.Err? ==> r.error == StaleNode && store == old(store) && nextRef == old(nextRef)
      ensures r.Ok? ==> && r.value.id == item.id && r.value.isFolder == (item.kind == Folder)
                        && r.value.node in store && Live(store, r.value.node)
                        && r.value.path == store[r.value.node].path
      ensures r.Ok? && node.Some? ==> r.value.node == node.value && nextRef == old(nextRef)
      ensures r.Ok? && node.None? && (exists h :: ChildAt(old(store), parent, item.name, h)) ==>
                ChildAt(old(store), parent, item.name, r.value.node) && nextRef == old(nextRef)
      ensures r.Ok? && node.None? && !(exists h :: ChildAt(old(store), parent, item.name, h)) ==>
                r.value.node == old(nextRef) && nextRef == old(nextRef) + 1
      ensures r.Ok? ==>
                var h := r.value.node;
                var before := if h in old(store) then old(store)[h] else Created(old(store), parent, item);
                var drift := IsChanged(h !in persisted, item.token, before.token, item.modified, before.modified);
                && r.value.changed == (item.kind == Folder || drift)
                && store == old(store)[h := if drift then Refresh(before, item, resolver) else before]
      ensures forall g :: g in old(store) && old(store)[g].title == item.name ==> g in store && store[g].title == item.name
    {
      var h: NodeRef;
      if node.Some? {
        if !Live(store, node.value) {
          return Err(StaleNode);
        }
        h := node.value;
      } else {
        if !Live(store, parent) {
          return Err(StaleNode);
        }
        if exists c :: c in store && ChildAt(store, parent, item.name, c) {
          h :| h in store && ChildAt(store, parent, item.name, h);
        } else {
          h := nextRef;
          store := store[h := Created(store, parent, item)];
          nextRef := nextRef + 1;
        }
      }
      var before := store[h];
      var drift := IsChanged(h !in persisted, item.token, before.token, item.modified, before.modified);
      if drift {
        store := store[h := Refresh(before, item, resolver)];
      }
      r := Ok(LocalFile(h, store[h].path, item.id, item.kind == Folder, item.kind == Folder || drift));
    }

    /**
     * readLocalNodes: the index is rebuilt from the store, every cloud node under
     * its id, and every file's list also under its version series and
     * checked-out ids (readNodes).
     */
    method ReadLocalNodes()
      requires Valid()
      modifies this`index, this`nextList
      ensures Valid()
      ensures index == ReadIndex(store, nextRef)
    {
      var g := BaseEntries(store, nextRef);
      var keys := RebuildKeys(store, g);
      var lists := ListsOf(g);
      RebuildRefersToLists(store, lists, Entries(g));
      assert WellFormed(Index(keys, lists), store);
      index := Index(keys, lists);
      nextList := |g|;
    }
  }
}
