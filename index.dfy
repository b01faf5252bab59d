/**
 * The node index `nodes` of the sync commands: remote id (or alias) to the
 * list of local nodes mirroring it. A Java List may be shared by several keys
 * (readNodes maps version-series and checked-out ids to the list of the
 * document), so keys map to list references and the lists live apart.
 */
module NodeIndex {
  import opened Wrappers
  import opened Remote
  import opened LocalStore

  /** Identity of a java.util.List held by the index. */
  type ListRef = nat

  datatype Index = Index(keys: map<Id, ListRef>, lists: map<ListRef, seq<NodeRef>>)

  /** Every key names a list and every listed node is a node of the store. */
  ghost predicate WellFormed(idx: Index, s: Store) {
    && (forall k :: k in idx.keys ==> idx.keys[k] in idx.lists)
    && (forall l, h :: l in idx.lists && h in idx.lists[l] ==> h in s)
  }

  /** The nodes of `l` whose path does not start with `prefix`, in their order. */
  function PruneList(s: Store, l: seq<NodeRef>, prefix: Path): (r: seq<NodeRef>)
    requires forall h :: h in l ==> h in s
    ensures forall h :: h in r <==> h in l && !StartsWith(s[h].path, prefix)
    ensures |r| <= |l|
  {
    if |l| == 0 then []
    else
      var rest := PruneList(s, l[1..], prefix);
      if StartsWith(s[l[0]].path, prefix) then rest else [l[0]] + rest
  }

  /** Pruning twice with the same prefix prunes nothing more (aliased lists are visited again). */
  lemma {:induction false} PruneListIdempotent(s: Store, l: seq<NodeRef>, prefix: Path)
    requires forall h :: h in l ==> h in s
    ensures PruneList(s, PruneList(s, l, prefix), prefix) == PruneList(s, l, prefix)
  {
    if |l| > 0 {
      PruneListIdempotent(s, l[1..], prefix);
      var rest := PruneList(s, l[1..], prefix);
      if !StartsWith(s[l[0]].path, prefix) {
        assert ([l[0]] + rest)[1..] == rest;
      }
    }
  }

  /** The list is empty exactly when no node survives the pruning. */
  lemma {:induction false} PruneListEmpty(s: Store, l: seq<NodeRef>, prefix: Path)
    requires forall h :: h in l ==> h in s
    ensures |PruneList(s, l, prefix)| == 0 <==> forall h :: h in l ==> StartsWith(s[h].path, prefix)
  {
    var r := PruneList(s, l, prefix);
    if |r| > 0 {
      assert r[0] in r;
    }
  }

  /** The lists a key outside `todo` refers to. */
  function Visited(idx: Index, todo: set<Id>): set<ListRef> {
    set k | k in idx.keys && k !in todo :: idx.keys[k]
  }

  lemma {:induction false} VisitedStep(idx: Index, todo: set<Id>, k: Id)
    requires k in todo && k in idx.keys
    ensures Visited(idx, todo - {k}) == Visited(idx, todo) + {idx.keys[k]}
  {
  }

  /** The lists after pruning those in `visited`, except `existing`. */
  function PrunedLists(s: Store, lists: map<ListRef, seq<NodeRef>>, existing: ListRef, prefix: Path,
                       visited: set<ListRef>): (r: map<ListRef, seq<NodeRef>>)
    requires forall l, h :: l in lists && h in lists[l] ==> h in s
    ensures r.Keys == lists.Keys
    ensures forall l :: l in lists ==>
              r[l] == if l != existing && l in visited then PruneList(s, lists[l], prefix) else lists[l]
  {
    map l | l in lists :: if l != existing && l in visited then PruneList(s, lists[l], prefix) else lists[l]
  }

  /** The keys kept: those still to visit, those of `existing`, and those whose list is not empty. */
  function KeptKeys(keys: map<Id, ListRef>, lists: map<ListRef, seq<NodeRef>>, existing: ListRef,
                    todo: set<Id>): (r: map<Id, ListRef>)
    requires forall k :: k in keys ==> keys[k] in lists
    ensures forall k :: k in r <==> k in keys && (k in todo || keys[k] == existing || |lists[keys[k]]| > 0)
    ensures forall k :: k in r ==> r[k] == keys[k]
  {
    map k | k in keys && (k in todo || keys[k] == existing || |lists[keys[k]]| > 0) :: keys[k]
  }

  /**
   * The index part way through the cleaning loop of deleteFile for one removed
   * path, with the keys in `todo` still to visit: every list other than
   * `existing` that a visited key refers to has lost the nodes whose path
   * starts with `prefix`, and visited keys whose list (other than `existing`)
   * became empty are gone.
   */
  function PartialPrune(s: Store, idx: Index, existing: ListRef, prefix: Path, todo: set<Id>): (r: Index)
    requires WellFormed(idx, s)
    ensures r.lists.Keys == idx.lists.Keys
    ensures forall l, h :: l in r.lists && h in r.lists[l] ==> h in idx.lists[l]
    ensures WellFormed(r, s)
  {
    var lists := PrunedLists(s, idx.lists, existing, prefix, Visited(idx, todo));
    Index(KeptKeys(idx.keys, lists, existing, todo), lists)
  }

  /**
   * The index cleaning of deleteFile for one removed path: every list other
   * than `existing` that a key refers to loses the nodes whose path starts
   * with `prefix`, and keys whose list became empty are dropped; `existing`
   * and its keys are left to the caller.
   */
  function PruneIndex(s: Store, idx: Index, existing: ListRef, prefix: Path): (r: Index)
    requires WellFormed(idx, s)
    ensures r.lists.Keys == idx.lists.Keys
    ensures r.keys.Keys <= idx.keys.Keys
    ensures forall k :: k in r.keys ==> r.keys[k] == idx.keys[k]
    ensures existing in idx.lists ==> r.lists[existing] == idx.lists[existing]
    ensures forall k :: k in idx.keys && idx.keys[k] == existing ==> k in r.keys
    ensures forall k :: k in idx.keys && idx.keys[k] != existing ==>
              r.lists[idx.keys[k]] == PruneList(s, idx.lists[idx.keys[k]], prefix)
    ensures forall l :: l in idx.lists && l !in idx.keys.Values ==> r.lists[l] == idx.lists[l]
    ensures forall k :: k in idx.keys && idx.keys[k] != existing ==>
              (k in r.keys <==> |r.lists[idx.keys[k]]| > 0)
    ensures forall l, h :: l in r.lists && h in r.lists[l] ==> h in idx.lists[l]
    ensures WellFormed(r, s)
  {
    var r := PartialPrune(s, idx, existing, prefix, {});
    assert Visited(idx, {}) == idx.keys.Values;
    r
  }

  /** A list already pruned, or never pruned, is pruned by the visit of a key. */
  lemma {:induction false} PrunedListsAt(s: Store, lists: map<ListRef, seq<NodeRef>>, existing: ListRef, prefix: Path,
                      visited: set<ListRef>, l: ListRef, m: ListRef)
    requires forall l, h :: l in lists && h in lists[l] ==> h in s
    requires l in lists && l != existing && m in lists
    ensures var p := PrunedLists(s, lists, existing, prefix, visited);
            PrunedLists(s, lists, existing, prefix, visited + {l})[m] == p[l := PruneList(s, p[l], prefix)][m]
  {
    if m == l {
      PruneListIdempotent(s, lists[l], prefix);
    }
  }

  /** The same for all the lists at once. */
  lemma {:induction false} PrunedListsStep(s: Store, lists: map<ListRef, seq<NodeRef>>, existing: ListRef, prefix: Path,
                        visited: set<ListRef>, l: ListRef)
    requires forall l, h :: l in lists && h in lists[l] ==> h in s
    requires l in lists && l != existing
    ensures var p := PrunedLists(s, lists, existing, prefix, visited);
            PrunedLists(s, lists, existing, prefix, visited + {l}) == p[l := PruneList(s, p[l], prefix)]
  {
    var p := PrunedLists(s, lists, existing, prefix, visited);
    var q := PrunedLists(s, lists, existing, prefix, visited + {l});
    forall m | m in lists
      ensures q[m] == p[l := PruneList(s, p[l], prefix)][m]
    {
      PrunedListsAt(s, lists, existing, prefix, visited, l, m);
    }
  }

  /** Visiting a key drops it exactly when its list (other than `existing`) is now empty. */
  lemma {:induction false} KeptKeysStep(keys: map<Id, ListRef>, before: map<ListRef, seq<NodeRef>>, after: map<ListRef, seq<NodeRef>>,
                     existing: ListRef, todo: set<Id>, k: Id)
    requires forall j :: j in keys ==> keys[j] in before && keys[j] in after
    requires k in todo && k in keys
    // only the list of `k` may have changed, and not for the keys already visited
    requires forall j :: j in keys && keys[j] != keys[k] ==> before[keys[j]] == after[keys[j]]
    requires forall j :: j in keys && j !in todo && keys[j] == keys[k] ==> before[keys[j]] == after[keys[j]]
    ensures var p := KeptKeys(keys, before, existing, todo);
            KeptKeys(keys, after, existing, todo - {k}) ==
            if keys[k] == existing || |after[keys[k]]| > 0 then p else p - {k}
  {
    var p := KeptKeys(keys, before, existing, todo);
    var q := KeptKeys(keys, after, existing, todo - {k});
    var e := if keys[k] == existing || |after[keys[k]]| > 0 then p else p - {k};
    forall j | j in keys
      ensures j in q <==> j in e
    {
    }
    assert q.Keys == e.Keys;
    forall j | j in q
      ensures q[j] == e[j]
    {
    }
  }

  /** The list `existing` is never pruned. */
  lemma {:induction false} PrunedListsSkipExisting(s: Store, lists: map<ListRef, seq<NodeRef>>, existing: ListRef, prefix: Path,
                                visited: set<ListRef>)
    requires forall l, h :: l in lists && h in lists[l] ==> h in s
    ensures PrunedLists(s, lists, existing, prefix, visited + {existing}) == PrunedLists(s, lists, existing, prefix, visited)
  {
  }

  /** Before any key is visited, the index is untouched. */
  lemma {:induction false} PartialPruneStart(s: Store, idx: Index, existing: ListRef, prefix: Path)
    requires WellFormed(idx, s)
    ensures PartialPrune(s, idx, existing, prefix, idx.keys.Keys) == idx
  {
    assert Visited(idx, idx.keys.Keys) == {};
  }

  /** A visited key of the list `existing` changes nothing. */
  lemma {:induction false} PartialPruneOwn(s: Store, idx: Index, existing: ListRef, prefix: Path, todo: set<Id>, k: Id)
    requires WellFormed(idx, s) && k in todo && todo <= idx.keys.Keys && idx.keys[k] == existing
    ensures PartialPrune(s, idx, existing, prefix, todo - {k}) == PartialPrune(s, idx, existing, prefix, todo)
  {
    var visited := Visited(idx, todo);
    VisitedStep(idx, todo, k);
    var before := PrunedLists(s, idx.lists, existing, prefix, visited);
    PrunedListsSkipExisting(s, idx.lists, existing, prefix, visited);
    KeptKeysStep(idx.keys, before, before, existing, todo, k);
  }

  /** Any other visited key has its list pruned, and goes when the list is then empty. */
  lemma {:induction false} PartialPruneVisit(s: Store, idx: Index, existing: ListRef, prefix: Path, todo: set<Id>, k: Id)
    requires WellFormed(idx, s) && k in todo && todo <= idx.keys.Keys && idx.keys[k] != existing
    ensures var p := PartialPrune(s, idx, existing, prefix, todo);
            var l := idx.keys[k];
            var lists := p.lists[l := PruneList(s, p.lists[l], prefix)];
            PartialPrune(s, idx, existing, prefix, todo - {k}) ==
              Index(if |lists[l]| == 0 then p.keys - {k} else p.keys, lists)
  {
    var l := idx.keys[k];
    var visited := Visited(idx, todo);
    VisitedStep(idx, todo, k);
    var before := PrunedLists(s, idx.lists, existing, prefix, visited);
    var after := PrunedLists(s, idx.lists, existing, prefix, visited + {l});
    PrunedListsStep(s, idx.lists, existing, prefix, visited, l);
    PruneListIdempotent(s, idx.lists[l], prefix);
    forall j | j in idx.keys && j !in todo && idx.keys[j] == l
      ensures before[l] == after[l]
    {
      assert l in visited;
    }
    KeptKeysStep(idx.keys, before, after, existing, todo, k);
  }

  /** One key visited by the cleaning loop: its list pruned (again), and the key dropped if the list is empty. */
  lemma {:induction false} PartialPruneStep(s: Store, idx: Index, existing: ListRef, prefix: Path, todo: set<Id>, k: Id)
    requires WellFormed(idx, s) && k in todo && todo <= idx.keys.Keys
    ensures var p := PartialPrune(s, idx, existing, prefix, todo);
            var l := idx.keys[k];
            && k in p.keys && p.keys[k] == l && l in p.lists
            && PartialPrune(s, idx, existing, prefix, todo - {k}) ==
               if l == existing then p
               else
                 var lists := p.lists[l := PruneList(s, p.lists[l], prefix)];
                 Index(if |lists[l]| == 0 then p.keys - {k} else p.keys, lists)
  {
    if idx.keys[k] == existing {
      PartialPruneOwn(s, idx, existing, prefix, todo, k);
    } else {
      PartialPruneVisit(s, idx, existing, prefix, todo, k);
    }
  }

  /** Pruning only looks at the paths of the listed nodes. */
  lemma {:induction false} PruneListSamePaths(s: Store, t: Store, l: seq<NodeRef>, prefix: Path)
    requires forall h :: h in l ==> h in s && h in t && s[h].path == t[h].path
    ensures PruneList(s, l, prefix) == PruneList(t, l, prefix)
  {
    if |l| > 0 {
      PruneListSamePaths(s, t, l[1..], prefix);
    }
  }

  /** The same holds for the pruning of all the lists. */
  lemma {:induction false} PrunedListsSamePaths(s: Store, t: Store, lists: map<ListRef, seq<NodeRef>>, existing: ListRef, prefix: Path,
                             visited: set<ListRef>)
    requires forall l, h :: l in lists && h in lists[l] ==> h in s && h in t && s[h].path == t[h].path
    ensures PrunedLists(s, lists, existing, prefix, visited) == PrunedLists(t, lists, existing, prefix, visited)
  {
    forall l | l in lists && l != existing && l in visited
      ensures PruneList(s, lists[l], prefix) == PruneList(t, lists[l], prefix)
    {
      PruneListSamePaths(s, t, lists[l], prefix);
    }
  }

  /** And for the cleaning of the whole index. */
  lemma {:induction false} PruneIndexSamePaths(s: Store, t: Store, idx: Index, existing: ListRef, prefix: Path)
    requires WellFormed(idx, s) && WellFormed(idx, t)
    requires forall h :: h in s && h in t ==> s[h].path == t[h].path
    ensures PruneIndex(s, idx, existing, prefix) == PruneIndex(t, idx, existing, prefix)
  {
    PrunedListsSamePaths(s, t, idx.lists, existing, prefix, Visited(idx, {}));
  }

  /** The path starts with one of the prefixes. */
  predicate StartsWithAny(p: Path, prefixes: seq<Path>) {
    |prefixes| > 0 && (StartsWithAny(p, prefixes[..|prefixes| - 1]) || StartsWith(p, prefixes[|prefixes| - 1]))
  }

  /** The index after deleteFile's cleaning for each removed path in turn. */
  function PruneRounds(s: Store, idx: Index, existing: ListRef, prefixes: seq<Path>): (r: Index)
    requires WellFormed(idx, s)
    ensures WellFormed(r, s)
    ensures r.lists.Keys == idx.lists.Keys
    ensures r.keys.Keys <= idx.keys.Keys
    ensures forall k :: k in r.keys ==> r.keys[k] == idx.keys[k]
    ensures forall k :: k in idx.keys && idx.keys[k] == existing ==> k in r.keys
    ensures existing in idx.lists ==> r.lists[existing] == idx.lists[existing]
    ensures forall l, h :: l in r.lists && h in r.lists[l] ==> h in idx.lists[l]
    // once anything was removed, no key is left on an emptied list (other than the file's own)
    ensures |prefixes| > 0 ==> forall k :: k in r.keys && r.keys[k] != existing ==> |r.lists[r.keys[k]]| > 0
  {
    if |prefixes| == 0 then idx
    else PruneIndex(s, PruneRounds(s, idx, existing, prefixes[..|prefixes| - 1]), existing, prefixes[|prefixes| - 1])
  }

  /** No list a key still refers to (other than the file's own) holds a node below a removed path. */
  lemma {:induction false} PruneRoundsDropsDescendants(s: Store, idx: Index, existing: ListRef, prefixes: seq<Path>,
                                                       k: Id, h: NodeRef)
    requires WellFormed(idx, s)
    requires var r := PruneRounds(s, idx, existing, prefixes);
             k in r.keys && r.keys[k] != existing && h in r.lists[r.keys[k]]
    ensures !StartsWithAny(s[h].path, prefixes)
  {
    if |prefixes| > 0 {
      var init := prefixes[..|prefixes| - 1];
      var mid := PruneRounds(s, idx, existing, init);
      PruneRoundsDropsDescendants(s, idx, existing, init, k, h);
    }
  }

  /**
   * The prefix test is textual: removing "/d/a" also drops an index entry of
   * the sibling "/d/ab", which is not below it.
   */
  lemma {:induction false} PruneListDropsTextualSibling(s: Store, sibling: NodeRef)
    requires sibling in s && s[sibling].path == "/d/ab"
    ensures !InSubtree(s[sibling].path, "/d/a")
    ensures PruneList(s, [sibling], "/d/a") == []
  {
    assert "/d/a" <= "/d/ab";
    assert ("/d/a" + "/")[4] != "/d/ab"[4];
  }

  /** The first of `versions` known to the index, as findDocumentNode scans getAllVersions. */
  function FirstKnown(keys: map<Id, ListRef>, versions: seq<Id>): (r: Option<ListRef>)
    ensures r.None? <==> forall i :: 0 <= i < |versions| ==> versions[i] !in keys
    ensures r.Some? ==> exists i :: 0 <= i < |versions| && versions[i] in keys && r.value == keys[versions[i]] &&
                                    forall j :: 0 <= j < i ==> versions[j] !in keys
  {
    if |versions| == 0 then None
    else if versions[0] in keys then Some(keys[versions[0]])
    else
      var rest := FirstKnown(keys, versions[1..]);
      assert rest.Some? ==> exists i :: 0 <= i < |versions| - 1 && versions[1..][i] in keys &&
                                        rest.value == keys[versions[1..][i]] &&
                                        forall j :: 0 <= j < i ==> versions[1..][j] !in keys;
      if rest.Some? then
        ghost var i :| 0 <= i < |versions| - 1 && versions[1..][i] in keys && rest.value == keys[versions[1..][i]] &&
                       forall j :: 0 <= j < i ==> versions[1..][j] !in keys;
        assert forall j :: 0 <= j < i + 1 ==> versions[j] !in keys by {
          forall j | 0 <= j < i + 1 ensures versions[j] !in keys {
            if j > 0 { assert versions[j] == versions[1..][j - 1]; }
          }
        }
        rest
      else
        assert forall i :: 0 <= i < |versions| ==> versions[i] !in keys by {
          forall i | 0 <= i < |versions| ensures versions[i] !in keys {
            if i > 0 { assert versions[i] == versions[1..][i - 1]; }
          }
        }
        None
  }

  /**
   * findDocumentNode: the list of the id; else, for a document, the list of its
   * version series id; else the list of the first of its versions the index
   * knows (none when the versions cannot be read).
   */
  function FindDocumentNode(keys: map<Id, ListRef>, id: Id, item: RemoteObject): (r: Option<ListRef>)
    ensures id in keys ==> r == Some(keys[id])
    ensures id !in keys && item.kind != Document ==> r.None?
    ensures id !in keys && item.kind == Document && item.seriesId.Some? && item.seriesId.value in keys ==>
              r == Some(keys[item.seriesId.value])
    ensures (id !in keys && item.kind == Document && (item.seriesId.None? || item.seriesId.value !in keys)) ==>
              r == (if item.versions.Some? then FirstKnown(keys, item.versions.value) else None)
    ensures r.Some? ==> exists k :: k in keys && keys[k] == r.value &&
                                    (k == id || Some(k) == item.seriesId ||
                                     (item.versions.Some? && k in item.versions.value))
  {
    if id in keys then Some(keys[id])
    else if item.kind != Document then None
    else if item.seriesId.Some? && item.seriesId.value in keys then Some(keys[item.seriesId.value])
    else if item.versions.None? then None
    else FirstKnown(keys, item.versions.value)
  }

  /** The alias keys readNodes adds for one node: version series and checked-out ids of a file. */
  function NodeAliases(n: LocalNode): set<Id> {
    if n.kind != CloudFile then {}
    else (if n.seriesId.Some? then {n.seriesId.value} else {}) +
         (if n.checkedOutId.Some? then {n.checkedOutId.value} else {})
  }

  /** Every key readNodes puts for one original entry (key, nodes): none when the list is empty. */
  function EntryKeys(s: Store, key: Id, l: seq<NodeRef>): (r: set<Id>)
    requires forall h :: h in l ==> h in s
    ensures |l| > 0 ==> key in r
    ensures |l| == 0 ==> r == {}
  {
    if |l| == 0 then {}
    else
      var init := l[..|l| - 1];
      var rest := EntryKeys(s, key, init);
      rest + NodeAliases(s[l[|l| - 1]]) + {key}
  }

  /** A key is put for an entry exactly when it is the entry's own key or an alias of one of its files. */
  lemma {:induction false} EntryKeysMembers(s: Store, key: Id, l: seq<NodeRef>, a: Id)
    requires forall h :: h in l ==> h in s
    ensures a in EntryKeys(s, key, l) <==> (|l| > 0 && a == key) || exists h :: h in l && a in NodeAliases(s[h])
  {
    if |l| > 0 {
      var init := l[..|l| - 1];
      EntryKeysMembers(s, key, init, a);
      assert forall h :: h in l <==> h == l[|l| - 1] || h in init;
    }
  }

  /** The puts readNodes does for one node of an entry: a file's aliases, then the entry's key. */
  function PutNode(keys: map<Id, ListRef>, n: LocalNode, key: Id, l: ListRef): map<Id, ListRef> {
    var withSeries := if n.kind == CloudFile && n.seriesId.Some? then keys[n.seriesId.value := l] else keys;
    var withCheckedOut := if n.kind == CloudFile && n.checkedOutId.Some? then withSeries[n.checkedOutId.value := l] else withSeries;
    withCheckedOut[key := l]
  }

  /** The puts readNodes does for the nodes of one entry, in their order. */
  function PutNodes(s: Store, keys: map<Id, ListRef>, key: Id, nodes: seq<NodeRef>, l: ListRef): (r: map<Id, ListRef>)
    requires forall h :: h in nodes ==> h in s
  {
    if |nodes| == 0 then keys
    else PutNode(PutNodes(s, keys, key, nodes[..|nodes| - 1], l), s[nodes[|nodes| - 1]], key, l)
  }

  /** The puts of an entry map exactly its keys to its list and leave every other key alone. */
  lemma {:induction false} PutNodesPutsEntryKeys(s: Store, keys: map<Id, ListRef>, key: Id, nodes: seq<NodeRef>,
                                                 l: ListRef, a: Id)
    requires forall h :: h in nodes ==> h in s
    ensures a in PutNodes(s, keys, key, nodes, l) <==> a in keys || a in EntryKeys(s, key, nodes)
    ensures a in PutNodes(s, keys, key, nodes, l) ==>
              PutNodes(s, keys, key, nodes, l)[a] == if a in EntryKeys(s, key, nodes) then l else keys[a]
  {
    if |nodes| > 0 {
      PutNodesPutsEntryKeys(s, keys, key, nodes[..|nodes| - 1], l, a);
    }
  }

  /**
   * The map readNodes rebuilds from the original entries, in their order:
   * each entry puts its keys to its list, later entries overwriting earlier ones.
   */
  function Rebuild(s: Store, lists: map<ListRef, seq<NodeRef>>, entries: seq<(Id, ListRef)>): (r: map<Id, ListRef>)
    requires forall i :: 0 <= i < |entries| ==> entries[i].1 in lists
    requires forall l, h :: l in lists && h in lists[l] ==> h in s
  {
    if |entries| == 0 then map[]
    else
      var last := entries[|entries| - 1];
      PutNodes(s, Rebuild(s, lists, entries[..|entries| - 1]), last.0, lists[last.1], last.1)
  }

  /** Every key of the rebuilt map refers to one of the lists. */
  lemma {:induction false} RebuildRefersToLists(s: Store, lists: map<ListRef, seq<NodeRef>>, entries: seq<(Id, ListRef)>)
    requires forall i :: 0 <= i < |entries| ==> entries[i].1 in lists
    requires forall l, h :: l in lists && h in lists[l] ==> h in s
    ensures forall a :: a in Rebuild(s, lists, entries) ==> Rebuild(s, lists, entries)[a] in lists
  {
    forall a | a in Rebuild(s, lists, entries)
      ensures Rebuild(s, lists, entries)[a] in lists
    {
      RebuildLastClaimWins(s, lists, entries, a);
    }
  }

  /** Whether entry `i` puts key `a`. */
  predicate Claims(s: Store, lists: map<ListRef, seq<NodeRef>>, entries: seq<(Id, ListRef)>, i: int, a: Id)
    requires forall i :: 0 <= i < |entries| ==> entries[i].1 in lists
    requires forall l, h :: l in lists && h in lists[l] ==> h in s
  {
    0 <= i < |entries| && a in EntryKeys(s, entries[i].0, lists[entries[i].1])
  }

  /** The last entry that puts key `a`, or -1 when none does. */
  function LastClaim(s: Store, lists: map<ListRef, seq<NodeRef>>, entries: seq<(Id, ListRef)>, a: Id): (i: int)
    requires forall i :: 0 <= i < |entries| ==> entries[i].1 in lists
    requires forall l, h :: l in lists && h in lists[l] ==> h in s
    ensures -1 <= i < |entries|
    ensures i >= 0 ==> Claims(s, lists, entries, i, a)
    ensures forall j :: i < j < |entries| ==> !Claims(s, lists, entries, j, a)
  {
    if |entries| == 0 then -1
    else if Claims(s, lists, entries, |entries| - 1, a) then |entries| - 1
    else
      var init := entries[..|entries| - 1];
      var i := LastClaim(s, lists, init, a);
      assert forall j :: 0 <= j < |init| ==> (Claims(s, lists, init, j, a) <==> Claims(s, lists, entries, j, a)) by {
        forall j | 0 <= j < |init| ensures Claims(s, lists, init, j, a) <==> Claims(s, lists, entries, j, a) {
          assert init[j] == entries[j];
        }
      }
      i
  }

  /**
   * A key is in the rebuilt map exactly when some entry puts it, and it maps to
   * the list of the last entry that does.
   */
  lemma {:induction false} RebuildLastClaimWins(s: Store, lists: map<ListRef, seq<NodeRef>>,
                                                entries: seq<(Id, ListRef)>, a: Id)
    requires forall i :: 0 <= i < |entries| ==> entries[i].1 in lists
    requires forall l, h :: l in lists && h in lists[l] ==> h in s
    ensures a in Rebuild(s, lists, entries) <==> LastClaim(s, lists, entries, a) >= 0
    ensures a in Rebuild(s, lists, entries) ==>
              Rebuild(s, lists, entries)[a] == entries[LastClaim(s, lists, entries, a)].1
  {
    if |entries| > 0 {
      var init := entries[..|entries| - 1];
      var last := entries[|entries| - 1];
      RebuildLastClaimWins(s, lists, init, a);
      PutNodesPutsEntryKeys(s, Rebuild(s, lists, init), last.0, lists[last.1], last.1, a);
    }
  }

  /**
   * An original key whose list is empty and that no file claims as an alias is
   * gone after the rebuild: a key emptied by deleteFile disappears at the next read.
   */
  lemma {:induction false} EmptiedKeyDropped(s: Store, lists: map<ListRef, seq<NodeRef>>, entries: seq<(Id, ListRef)>, k: Id)
    requires forall i :: 0 <= i < |entries| ==> entries[i].1 in lists
    requires forall l, h :: l in lists && h in lists[l] ==> h in s
    requires forall i :: 0 <= i < |entries| && entries[i].0 == k ==> lists[entries[i].1] == []
    requires forall i, h :: 0 <= i < |entries| && h in lists[entries[i].1] ==> k !in NodeAliases(s[h])
    ensures k !in Rebuild(s, lists, entries)
  {
    RebuildLastClaimWins(s, lists, entries, k);
    var i := LastClaim(s, lists, entries, k);
    if i >= 0 {
      EntryKeysMembers(s, entries[i].0, lists[entries[i].1], k);
    }
  }

  /**
   * An original key with a non-empty list that no later entry claims maps to
   * its own list after the rebuild.
   */
  lemma {:induction false} OwnKeyKept(s: Store, lists: map<ListRef, seq<NodeRef>>, entries: seq<(Id, ListRef)>, i: int)
    requires forall i :: 0 <= i < |entries| ==> entries[i].1 in lists
    requires forall l, h :: l in lists && h in lists[l] ==> h in s
    requires 0 <= i < |entries| && |lists[entries[i].1]| > 0
    requires forall j :: i < j < |entries| ==> !Claims(s, lists, entries, j, entries[i].0)
    ensures entries[i].0 in Rebuild(s, lists, entries)
    ensures Rebuild(s, lists, entries)[entries[i].0] == entries[i].1
  {
    var k := entries[i].0;
    assert Claims(s, lists, entries, i, k);
    RebuildLastClaimWins(s, lists, entries, k);
  }
}
