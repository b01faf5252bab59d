/**
 * The remote CMIS repository as the engine sees it: objects, listings,
 * change events, and the conflict adoption of FileAPI.createFile/createFolder.
 */
module Remote {
  import opened Wrappers

  type Id = string

  /** Base type of a CMIS object; OtherFileable stands for fileable items that are neither. */
  datatype Kind = Document | Folder | Relationship | OtherFileable

  /** A CmisObject with the properties the engine reads. */
  datatype RemoteObject = RemoteObject(
    id: Id,
    name: string,
    kind: Kind,
    typeId: string,                 // getType().getId()
    token: Option<string>,          // getChangeToken(), may be null
    modified: int,                  // getLastModificationDate()
    mimeType: Option<string>,       // getContentStreamMimeType() of documents
    parents: seq<Id>,               // folder parent (at most one) or filing parents
    seriesId: Option<Id>,           // cmis:versionSeriesId
    checkedOutId: Option<Id>,       // cmis:versionSeriesCheckedOutId
    versions: Option<seq<Id>>)      // ids of getAllVersions(); None: not found

  /** An object together with what getFolderItems lists under it. */
  datatype Listing = Listing(item: RemoteObject, children: seq<Listing>)

  datatype ChangeType = Created | Updated | Deleted | Security

  /**
   * One entry of the change log. `syncable` is api.isSyncableChange(change);
   * `token` is what the change iterator reports as its last token once this
   * event has been returned.
   */
  datatype ChangeEvent = ChangeEvent(changeType: ChangeType, objectId: Id, syncable: bool, token: string)

  /**
   * A snapshot of the repository: the root listing, every object by id with its
   * listing, the latest change-log token ("" is the empty token) and whether the
   * repository has the change-log capability.
   */
  datatype Repo = Repo(root: Listing, objects: map<Id, Listing>, latestToken: string, changesSupported: bool)

  /** api.getObject(id): the object, or NotFound. */
  function GetObject(repo: Repo, id: Id): (r: Result<RemoteObject>)
    ensures r.Ok? <==> id in repo.objects
    ensures r.Ok? ==> r.value == repo.objects[id].item
    ensures r.Err? ==> r.error == NotFound
  {
    if id in repo.objects then Ok(repo.objects[id].item) else Err(NotFound)
  }

  /** The position of the first occurrence of `x` in `s`. */
  function FirstIndex(s: seq<Id>, x: Id): (k: nat)
    requires x in s
    ensures k < |s| && s[k] == x && x !in s[..k]
  {
    if s[0] == x then 0 else 1 + FirstIndex(s[1..], x)
  }

  /** An occurrence within a prefix is found at the same place in the whole sequence. */
  lemma {:induction false} FirstIndexInPrefix(s: seq<Id>, m: nat, x: Id)
    requires m <= |s| && x in s[..m]
    ensures FirstIndex(s, x) == FirstIndex(s[..m], x)
  {
    if s[0] != x {
      assert s[..m][1..] == s[1..][..m - 1];
      FirstIndexInPrefix(s[1..], m - 1, x);
    }
  }

  /** The ids of `s` in first-occurrence order without repetition (a LinkedHashSet of ids). */
  function Distinct(s: seq<Id>): (r: seq<Id>)
    ensures forall x :: x in r <==> x in s
    ensures forall i, j :: 0 <= i < j < |r| ==> r[i] != r[j]
    ensures forall i, j :: 0 <= i < j < |r| ==> FirstIndex(s, r[i]) < FirstIndex(s, r[j])
    ensures |r| <= |s|
  {
    if |s| == 0 then []
    else
      var front := s[..|s| - 1];
      var rest := Distinct(front);
      assert forall x :: x in rest ==> FirstIndex(s, x) == FirstIndex(front, x) by {
        forall x | x in rest {
          FirstIndexInPrefix(s, |s| - 1, x);
        }
      }
      if s[|s| - 1] in rest then rest else rest + [s[|s| - 1]]
  }

  /**
   * The parent ids the change-log loop collects for a created or updated item:
   * the single folder parent of a folder, every filing parent of anything else.
   */
  function ParentIds(item: RemoteObject): (r: seq<Id>)
    ensures item.kind == Folder ==> r == (if |item.parents| > 0 then [item.parents[0]] else [])
    ensures item.kind != Folder ==> forall p :: p in r <==> p in item.parents
    ensures item.kind != Folder ==>
      forall i, j :: 0 <= i < j < |r| ==> FirstIndex(item.parents, r[i]) < FirstIndex(item.parents, r[j])
    ensures |r| == 0 <==> |item.parents| == 0
    ensures forall i, j :: 0 <= i < j < |r| ==> r[i] != r[j]
  {
    if item.kind == Folder then
      if |item.parents| > 0 then [item.parents[0]] else []
    else
      Distinct(item.parents)
  }

  /**
   * The index of the first child named `title`, as the conflict branch of
   * createFile/createFolder scans getFolderItems(parentId) and breaks at it.
   */
  function FirstNamed(children: seq<RemoteObject>, title: string): (r: Option<nat>)
    ensures r.Some? ==> r.value < |children| && children[r.value].name == title
    ensures r.Some? ==> forall j :: 0 <= j < r.value ==> children[j].name != title
    ensures r.None? ==> forall j :: 0 <= j < |children| ==> children[j].name != title
  {
    if |children| == 0 then None
    else if children[0].name == title then Some(0)
    else
      var rest := FirstNamed(children[1..], title);
      if rest.Some? then Some(rest.value + 1) else None
  }

  /**
   * On a ConflictException from create, adopt the first existing child with the
   * same name when it has the kind being created; otherwise re-throw the conflict.
   */
  function AdoptOnConflict(children: seq<RemoteObject>, title: string, wantFolder: bool): (r: Result<RemoteObject>)
    ensures r.Ok? <==> exists i :: 0 <= i < |children| && children[i].name == title &&
                                   (forall j :: 0 <= j < i ==> children[j].name != title) &&
                                   (if wantFolder then children[i].kind == Folder else children[i].kind == Document)
    ensures r.Ok? ==> r.value in children && r.value.name == title
    ensures r.Ok? ==> (if wantFolder then r.value.kind == Folder else r.value.kind == Document)
    ensures r.Err? ==> r.error == Conflict
  {
    var first := FirstNamed(children, title);
    if first.None? then Err(Conflict)
    else
      var existing := children[first.value];
      if (if wantFolder then existing.kind == Folder else existing.kind == Document) then Ok(existing)
      else Err(Conflict)
  }
}
