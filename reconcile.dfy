/**
 * The reconciliation primitive updateItem: the type it resolves, the drift
 * test deciding whether a node changed, and the fields it writes when it did.
 */
module Reconcile {
  import opened Wrappers
  import opened Remote
  import opened MimeTypes
  import opened LocalStore

  /**
   * The drift test of updateItem: a node created by this call is changed;
   * otherwise change tokens decide when both exist, else the modification
   * dates must be exactly equal for the node to be unchanged.
   */
  function IsChanged(isNew: bool, remoteToken: Option<string>, localToken: Option<string>,
                     remoteModified: int, localModified: int): (changed: bool)
    ensures isNew ==> changed
    ensures !isNew && remoteToken.Some? && localToken.Some? ==>
              (changed <==> remoteToken.value != localToken.value)
    ensures !isNew && (remoteToken.None? || localToken.None?) ==>
              (changed <==> remoteModified != localModified)
    // a date that moved backwards is a change too, not only a newer one
    ensures !isNew && (remoteToken.None? || localToken.None?) && remoteModified < localModified ==> changed
  {
    if isNew then true
    else if remoteToken.None? || localToken.None? then remoteModified != localModified
    else localToken.value != remoteToken.value
  }

  /**
   * The type updateItem computes for a document: its content type, replaced by
   * the guess from its name when absent or exactly the default type.
   */
  function DocumentType(r: MimeResolver, item: RemoteObject): (t: Option<string>)
    ensures item.mimeType.Some? && item.mimeType.value != r.defaultType ==> t == item.mimeType
    ensures item.mimeType.None? || item.mimeType == Some(r.defaultType) ==> t == r.guess(item.name)
  {
    if item.mimeType.None? || item.mimeType.value == r.defaultType then r.guess(item.name) else item.mimeType
  }

  /**
   * The ecd:type value updateItem stores: the object type id of a folder;
   * for anything else the type above, refined by the initFile override with
   * findMimetype on its first string argument, which every caller passes as
   * the object id.
   */
  function StoredType(r: MimeResolver, item: RemoteObject): (t: string)
    ensures item.kind == Folder ==> t == item.typeId
    ensures item.kind == Document && item.mimeType.Some? && !NeedsResolution(r, item.mimeType) ==>
              t == item.mimeType.value
    ensures (item.kind == Document && (item.mimeType.None? || item.mimeType == Some(r.defaultType)) &&
             !NeedsResolution(r, r.guess(item.name))) ==> t == r.guess(item.name).value
    ensures item.kind != Folder && StartsWith(t, r.defaultType) ==> t == r.defaultType
  {
    if item.kind == Folder then item.typeId
    else
      var t := if item.kind == Document then DocumentType(r, item) else Some(item.typeId);
      FindMimetype(r, item.id, t, None)
  }

  /**
   * What initFolder/initFile and initCMISItem write on a changed node: every
   * mirrored field is overwritten from the remote object; the node keeps its
   * place, kind and flags.
   */
  function Refresh(n: LocalNode, item: RemoteObject, r: MimeResolver): (m: LocalNode)
    ensures m.path == n.path && m.parent == n.parent && m.kind == n.kind
    ensures m.removed == n.removed && m.ignored == n.ignored
    ensures m.id == item.id && m.title == item.name && m.token == item.token && m.modified == item.modified
    ensures m.seriesId == item.seriesId && m.checkedOutId == item.checkedOutId
    ensures m.mimeType == StoredType(r, item)
  {
    n.(id := item.id, title := item.name, token := item.token, modified := item.modified,
       mimeType := StoredType(r, item), seriesId := item.seriesId, checkedOutId := item.checkedOutId)
  }

  /** After a refresh the drift test reports the node as unchanged against the same object. */
  lemma {:induction false} RefreshSettlesDrift(n: LocalNode, item: RemoteObject, r: MimeResolver)
    ensures !IsChanged(false, item.token, Refresh(n, item, r).token, item.modified, Refresh(n, item, r).modified)
  {
  }
}
