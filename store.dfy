/**
 * The local JCR store of the drive, abstracted to a map of node records.
 * Nodes keep their handle when moved (a JCR Node object keeps its identity
 * while its path changes); a removed node stays in the map, flagged, because
 * the engine still reads the path of nodes it has removed.
 */
module LocalStore {
  import opened Wrappers
  import opened Remote

  /** Identity of a JCR Node object. */
  type NodeRef = nat

  type Path = string

  /** What fileAPI.isDrive/isFolder/isFile say of a node; Plain is any other node. */
  datatype NodeKind = DriveRoot | CloudFolder | CloudFile | Plain

  /** A local node and the mirrored properties the engine reads or writes. */
  datatype LocalNode = LocalNode(
    path: Path,
    parent: NodeRef,
    kind: NodeKind,
    ignored: bool,                  // fileAPI.isIgnored
    removed: bool,                  // Node.remove() was called on it or an ancestor
    id: Id,                         // ecd:id
    title: string,                  // exo:title
    token: Option<string>,          // cmiscd:changeToken
    modified: int,                  // ecd:modified
    mimeType: string,               // ecd:type
    seriesId: Option<Id>,           // cmiscd:versionSeriesId
    checkedOutId: Option<Id>)       // cmiscd:versionSeriesCheckedOutId

  type Store = map<NodeRef, LocalNode>

  /** The node exists in the store and has not been removed. */
  predicate Live(s: Store, h: NodeRef) {
    h in s && !s[h].removed
  }

  /** A cloud folder or the drive node: the parents deleteFile and restore act under. */
  predicate IsCloudContainer(s: Store, h: NodeRef) {
    Live(s, h) && (s[h].kind == CloudFolder || s[h].kind == DriveRoot)
  }

  function ChildPath(parent: Path, name: string): Path {
    parent + "/" + name
  }

  /** Hierarchical containment: the path is the root itself or lies below it. */
  predicate InSubtree(p: Path, root: Path) {
    p == root || root + "/" <= p
  }

  lemma {:induction false} InSubtreeStartsWith(p: Path, root: Path)
    requires InSubtree(p, root)
    ensures StartsWith(p, root)
  {
    if p != root {
      assert root == (root + "/")[..|root|];
    }
  }

  /** Node.remove(): the node and every node below it are removed; nothing else changes. */
  function RemoveSubtree(s: Store, root: Path): (r: Store)
    ensures r.Keys == s.Keys
    ensures forall h :: h in s ==> r[h] == s[h].(removed := s[h].removed || InSubtree(s[h].path, root))
  {
    map h | h in s :: s[h].(removed := s[h].removed || InSubtree(s[h].path, root))
  }

  /** Node.remove() on each of the given paths in turn. */
  function RemoveRounds(s: Store, roots: seq<Path>): (r: Store)
    ensures r.Keys == s.Keys
    ensures forall h :: h in s ==> r[h] == s[h].(removed := r[h].removed)
  {
    if |roots| == 0 then s
    else RemoveSubtree(RemoveRounds(s, roots[..|roots| - 1]), roots[|roots| - 1])
  }

  /** The path lies in the subtree of one of the roots. */
  predicate BelowAny(p: Path, roots: seq<Path>) {
    |roots| > 0 && (BelowAny(p, roots[..|roots| - 1]) || InSubtree(p, roots[|roots| - 1]))
  }

  /** After the removals, exactly the nodes already removed or lying below one of the paths are removed. */
  lemma {:induction false} RemoveRoundsRemoves(s: Store, roots: seq<Path>, h: NodeRef)
    requires h in s
    ensures RemoveRounds(s, roots)[h].removed <==> s[h].removed || BelowAny(s[h].path, roots)
  {
    if |roots| > 0 {
      RemoveRoundsRemoves(s, roots[..|roots| - 1], h);
    }
  }

  /** The node was removed already, or lies below one of the paths removed since. */
  predicate Gone(s0: Store, h: NodeRef, roots: seq<Path>)
    requires h in s0
  {
    s0[h].removed || BelowAny(s0[h].path, roots)
  }

  /** A removed path is below the removed paths: the removed node itself is gone. */
  lemma {:induction false} BelowAnyMember(p: Path, roots: seq<Path>)
    requires p in roots
    ensures BelowAny(p, roots)
  {
    if roots[|roots| - 1] != p {
      assert p in roots[..|roots| - 1];
      BelowAnyMember(p, roots[..|roots| - 1]);
    }
  }

  /** The path a node below `from` takes when `from` is moved to `to`. */
  function Rebase(p: Path, from: Path, to: Path): Path {
    if InSubtree(p, from) then to + p[|from|..] else p
  }

  /**
   * moveFile(id, name, node, parent): the node goes under `newParent` at
   * `newPath` with title `name`; live nodes below it follow; nothing else changes.
   */
  function MoveNode(s: Store, h: NodeRef, newParent: NodeRef, newPath: Path, name: string): (r: Store)
    requires h in s
    ensures r.Keys == s.Keys
    ensures r[h] == s[h].(path := newPath, parent := newParent, title := name)
    ensures forall g :: g in s && g != h ==>
              r[g] == (if Live(s, g) then s[g].(path := Rebase(s[g].path, s[h].path, newPath)) else s[g])
  {
    var from := s[h].path;
    var rebased := map g | g in s :: if Live(s, g) then s[g].(path := Rebase(s[g].path, from, newPath)) else s[g];
    rebased[h := s[h].(path := newPath, parent := newParent, title := name)]
  }

  /** A live node strictly below `src`: copyNode copies it along with `src`. */
  predicate CopiedBelow(s: Store, src: NodeRef, g: NodeRef)
    requires src in s
  {
    g != src && Live(s, g) && InSubtree(s[g].path, s[src].path)
  }

  /**
   * The handle of the copy of `h` when `src` is copied with fresh handles from
   * `next` on: `next` for `src`, `next + 1 + h` for a node below it; any other
   * handle is not copied and stays.
   */
  function CopyRef(s: Store, src: NodeRef, next: NodeRef, h: NodeRef): NodeRef
    requires src in s
  {
    if h == src then next else if CopiedBelow(s, src, h) then next + 1 + h else h
  }

  /** The handle whose copy is `k` when the copies below the copied node are numbered from `next + 1` on. */
  function Original(next: NodeRef, k: int): int {
    k - next - 1
  }

  /**
   * The copies of the live nodes strictly below `src` made when `src` is
   * copied to the path `to` with fresh handles from `next` on: each at its
   * path rebased to `to`, under the copy of its parent.
   */
  function Copies(s: Store, src: NodeRef, next: NodeRef, to: Path): (c: Store)
    requires src in s && forall h :: h in s ==> h < next
    ensures forall k :: k in c ==> next < k <= 2 * next && CopiedBelow(s, src, Original(next, k))
    ensures forall h :: h in s ==> h !in c
    ensures next !in c
    ensures forall g :: CopiedBelow(s, src, g) ==>
              && next + 1 + g in c
              && c[next + 1 + g] == s[g].(path := Rebase(s[g].path, s[src].path, to), parent := CopyRef(s, src, next, s[g].parent))
  {
    map k | next < k <= 2 * next && Original(next, k) in s && CopiedBelow(s, src, Original(next, k)) ::
      s[Original(next, k)].(path := Rebase(s[Original(next, k)].path, s[src].path, to),
                            parent := CopyRef(s, src, next, s[Original(next, k)].parent))
  }

  /**
   * copyNode(node, parent): a workspace copy of the node and of its live
   * subtree. The copy of `src` goes under `newParent` at its title; each live
   * node below `src` is copied under the copy of its parent, at its path
   * rebased to the copy's path; the original nodes are untouched.
   */
  function CopyNode(s: Store, src: NodeRef, newParent: NodeRef, parentPath: Path, next: NodeRef): (r: Store)
    requires src in s && forall h :: h in s ==> h < next
    ensures forall g :: g in s ==> g in r && r[g] == s[g]
    ensures next in r && r[next] == s[src].(path := ChildPath(parentPath, s[src].title), parent := newParent, removed := false)
    ensures forall g :: CopiedBelow(s, src, g) ==>
              && next + 1 + g in r
              && r[next + 1 + g] == s[g].(path := Rebase(s[g].path, s[src].path, ChildPath(parentPath, s[src].title)),
                                         parent := CopyRef(s, src, next, s[g].parent))
    ensures forall h :: h in r ==> h in s || h == next || (next < h <= 2 * next && CopiedBelow(s, src, Original(next, h)))
  {
    var to := ChildPath(parentPath, s[src].title);
    (s + Copies(s, src, next, to))[next := s[src].(path := to, parent := newParent, removed := false)]
  }

  /** The JCR object returned by updateItem (JCRLocalCloudFile): node, id, kind and changed flag. */
  datatype LocalFile = LocalFile(node: NodeRef, path: Path, id: Id, isFolder: bool, changed: bool)
}
