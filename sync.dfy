/**
 * The Sync command's facade (Sync.syncFiles): it compares the repository's
 * latest change-log token with the one stored on the drive node, replays the
 * change log when the repository has one, falls back to the full traversal
 * when the change log fails or yields no token, and finally stores the new
 * token and the sync time on the drive.
 */
module SyncFacade {
  import opened Wrappers
  import opened Remote
  import opened LocalStore
  import opened LocalDrive
  import ChangeSync
  import Traversal

  /** The algorithm Sync.syncFiles starts with. */
  datatype Route = UpToDate | ChangeLog | FullTraversal

  /**
   * The choice from the repository's latest token `remote`, the drive's token
   * `local` ("" is the empty token), an error earlier in the command and the
   * change-log capability: an empty remote token or an earlier error forces
   * the traversal, equal tokens mean nothing to do, and otherwise the change
   * log is used whenever the repository supports it.
   */
  function Choose(remote: string, local: string, preSyncError: bool, supported: bool): (r: Route)
    ensures r == UpToDate <==> remote != "" && !preSyncError && remote == local
    ensures r == ChangeLog <==> remote != "" && !preSyncError && remote != local && supported
    ensures r == FullTraversal <==> remote == "" || preSyncError || (remote != local && !supported)
  {
    if remote == "" || preSyncError then FullTraversal
    else if remote == local then UpToDate
    else if supported then ChangeLog
    else FullTraversal
  }

  /** ChangesAlgorithm.getLastChangeToken: a null last token reads as the empty token. */
  function LastToken(t: Option<string>): string {
    if t.Some? then t.value else ""
  }

  /**
   * The change-log branch of Sync.syncFiles: a CMISException of the run rolls
   * the session back and leaves the last token empty, so that the traversal
   * follows; any other error ends the sync. On success `last` is the token of
   * the last event taken, or empty when there was none.
   */
  method RunChangeLog(d: Drive, repo: Repo, events: seq<ChangeEvent>)
    returns (r: Outcome, last: string, ghost taken: nat, ghost logOutcome: Outcome)
    requires d.Valid()
    modifies d`store, d`persisted, d`nextRef, d`index, d`nextList, d`changed, d`removedPaths,
             d`localRemoved, d`localUpdated, d`changesActive, d`changesLast, d`checkpoints, d`polls
    ensures d.Valid() && d.changesActive && taken <= |events|
    ensures r.Fail? <==> logOutcome == Fail(StaleNode)
    ensures r.Fail? ==> r == logOutcome
    ensures logOutcome == Fail(Inconsistent) ==> r.Pass? && last == ""
    ensures logOutcome.Pass? ==> r.Pass? && last == (if taken == 0 then "" else events[taken - 1].token)
    ensures logOutcome.Fail? ==> taken > 0 && (logOutcome.error == Inconsistent || logOutcome.error == StaleNode)
    ensures logOutcome.Pass? && old(d.polls) + |events| <= d.interruptAt ==> taken == |events|
  {
    var o, n := ChangeSync.SyncChanges(d, repo, events);
    taken, logOutcome := n, o;
    if o == Fail(Inconsistent) {
      d.Rollback();
      return Pass, "", taken, logOutcome;
    }
    if o.Fail? {
      return o, "", taken, logOutcome;
    }
    r, last := Pass, LastToken(d.changesLast);
  }

  /**
   * The close of Sync.syncFiles: a non-empty change-log token `last` is
   * stored as it is; without one the repository is traversed and its latest
   * token `remote` stored. The sync time follows the token.
   */
  method Finish(d: Drive, repo: Repo, queue: seq<Traversal.Pending>, now: int, remote: string, last: string)
    returns (r: Outcome, traversed: bool)
    requires d.Valid()
    modifies d`store, d`persisted, d`nextRef, d`index, d`nextList, d`changed, d`removedPaths,
             d`checkpoints, d`polls, d`changeId
    ensures d.Valid()
    ensures traversed <==> last == ""
    ensures r.Fail? ==> r.error == StaleNode || r.error == NullPointer || r.error == MissingParent
    ensures r.Pass? ==> d.store[d.driveRef].token == Some(if traversed then remote else last) && d.changeId == now
  {
    traversed := last == "";
    if traversed {
      ghost var known;
      r, known := Traversal.Traverse(d, repo.root.item.id, queue);
      if r.Fail? {
        return;
      }
    }
    r := d.Commit(if traversed then remote else last, now);
  }

  /**
   * Sync.syncFiles once the route is chosen and is not UpToDate: the change
   * log runs if chosen, and its last token counts unless an earlier error
   * forces the traversal.
   */
  method Proceed(d: Drive, repo: Repo, events: seq<ChangeEvent>, queue: seq<Traversal.Pending>,
                 preSyncError: bool, now: int, route: Route, remote: string)
    returns (r: Outcome, traversed: bool, ghost taken: nat, ghost logOutcome: Outcome)
    requires d.Valid() && route != UpToDate
    modifies d`store, d`persisted, d`nextRef, d`index, d`nextList, d`changed, d`removedPaths,
             d`localRemoved, d`localUpdated, d`changesActive, d`changesLast, d`checkpoints, d`polls,
             d`changeId
    ensures d.Valid() && taken <= |events|
    ensures r.Fail? ==> r.error == StaleNode || r.error == NullPointer || r.error == MissingParent
    ensures route == FullTraversal ==> traversed && taken == 0 && logOutcome.Pass?
    ensures route == ChangeLog && traversed ==>
              taken == 0 || logOutcome == Fail(Inconsistent) || preSyncError || events[taken - 1].token == ""
    ensures route == ChangeLog && (|| logOutcome == Fail(Inconsistent)
                                   || (logOutcome.Pass? && (preSyncError || taken == 0 || events[taken - 1].token == ""))) ==>
              traversed
    ensures route == ChangeLog && !traversed && r.Pass? ==>
              0 < taken && d.store[d.driveRef].token == Some(events[taken - 1].token)
    ensures route == ChangeLog && logOutcome.Pass? && old(d.polls) + |events| <= d.interruptAt ==> taken == |events|
    ensures traversed && r.Pass? ==> d.store[d.driveRef].token == Some(remote)
    ensures r.Pass? ==> d.changeId == now
  {
    taken, logOutcome := 0, Pass;
    var last := "";
    if route == ChangeLog {
      r, last, taken, logOutcome := RunChangeLog(d, repo, events);
      if r.Fail? {
        return r, false, taken, logOutcome;
      }
    }
    r, traversed := Finish(d, repo, queue, now, remote, if preSyncError then "" else last);
  }

  /**
   * Sync.syncFiles. The stored token is read from the drive node first (a
   * removed drive node or a token never written is a repository error). An
   * up-to-date drive is left exactly as it was; otherwise the sync proceeds
   * on the chosen route. A CMISException of the change log never escapes:
   * the traversal takes over.
   */
  method SyncFiles(d: Drive, repo: Repo, events: seq<ChangeEvent>, queue: seq<Traversal.Pending>,
                   preSyncError: bool, now: int)
    returns (r: Outcome, route: Route, traversed: bool, ghost taken: nat, ghost logOutcome: Outcome)
    requires d.Valid()
    modifies d`store, d`persisted, d`nextRef, d`index, d`nextList, d`changed, d`removedPaths,
             d`localRemoved, d`localUpdated, d`changesActive, d`changesLast, d`checkpoints, d`polls,
             d`changeId
    ensures d.Valid()
    ensures !Live(old(d.store), d.driveRef) ==> r == Fail(StaleNode) && d.store == old(d.store) && !traversed
    ensures Live(old(d.store), d.driveRef) && old(d.store)[d.driveRef].token.None? ==>
              r == Fail(NoProperty) && d.store == old(d.store) && !traversed
    ensures Live(old(d.store), d.driveRef) && old(d.store)[d.driveRef].token.Some? ==>
              route == Choose(repo.latestToken, old(d.store)[d.driveRef].token.value, preSyncError, repo.changesSupported)
    ensures r.Fail? ==> r.error == StaleNode || r.error == NullPointer || r.error == MissingParent || r.error == NoProperty
    ensures route == UpToDate ==> r.Pass? && !traversed && d.store == old(d.store) && d.changed == old(d.changed)
                                  && d.changeId == old(d.changeId) && d.polls == old(d.polls)
    ensures route == FullTraversal && r.Pass? ==> traversed
    ensures taken <= |events|
    ensures route == ChangeLog && traversed ==> taken == 0 || logOutcome == Fail(Inconsistent) || events[taken - 1].token == ""
    ensures route == ChangeLog && (|| logOutcome == Fail(Inconsistent)
                                   || (logOutcome.Pass? && (taken == 0 || events[taken - 1].token == ""))) ==>
              traversed
    ensures route == ChangeLog && !traversed && r.Pass? ==>
              0 < taken && d.store[d.driveRef].token == Some(events[taken - 1].token)
    ensures route == ChangeLog && logOutcome.Pass? && old(d.polls) + |events| <= d.interruptAt ==> taken == |events|
    ensures traversed && r.Pass? ==> d.store[d.driveRef].token == Some(repo.latestToken)
    ensures r.Pass? && route != UpToDate ==> d.changeId == now
  {
    route, traversed, taken, logOutcome := FullTraversal, false, 0, Pass;
    d.changesActive := false;
    if d.store[d.driveRef].removed {
      return Fail(StaleNode), route, traversed, taken, logOutcome;
    }
    if d.store[d.driveRef].token.None? {
      return Fail(NoProperty), route, traversed, taken, logOutcome;
    }
    var remote, local := repo.latestToken, d.store[d.driveRef].token.value;
    route := Choose(remote, local, preSyncError, repo.changesSupported);
    if route == UpToDate {
      return Pass, route, traversed, taken, logOutcome;
    }
    r, traversed, taken, logOutcome := Proceed(d, repo, events, queue, preSyncError, now, route, remote);
  }
}
