/**
 * The change-log synchronization as a loop over the drive
 * (Sync.ChangesAlgorithm.syncFiles): each event is decided as ChangeLog.Step
 * decides it, applied through deleteFile or updateFile, and checkpointed.
 */
module ChangeSync {
  import opened Wrappers
  import opened Remote
  import opened LocalStore
  import opened LocalDrive
  import opened ChangeLog
  import opened Seqs
  import opened NodeIndex
  import Changes
  import FileUpdate

  /**
   * What the drive operation of decision `dec` for event `e` did, from the
   * store `s0`, index `i0` and removed paths `rp0` to the outcome `r` and the
   * new `s1`, `i1`, `rp1`: deleteFile with no parents for a removal (as
   * `Changes.Deleted` states), updateFile on the decided parents for an
   * application (as `FileUpdate.Updated` states), and nothing otherwise.
   */
  ghost predicate Performed(e: ChangeEvent, fetched: Option<RemoteObject>, dec: Decision, s0: Store, i0: Index,
                            rp0: seq<Path>, r: Outcome, s1: Store, i1: Index, rp1: seq<Path>)
    requires WellFormed(i0, s0)
  {
    && (dec.Remove? ==> Changes.Deleted(s0, i0, rp0, e.objectId, {}, r, s1, i1, rp1))
    && (dec.Apply? && fetched.Some? ==>
          exists existing, synced, done :: FileUpdate.Updated(s0, i0, fetched.value, dec.parents, r,
                                                              existing, synced, done, s1, i1))
    && (!dec.Remove? && !dec.Apply? ==> r == Pass && s1 == s0 && i1 == i0 && rp1 == rp0)
  }

  /** The drive operation a decision calls for: deleteFile with no parents, updateFile, or nothing. */
  method Perform(d: Drive, e: ChangeEvent, fetched: Option<RemoteObject>, dec: Decision) returns (r: Outcome)
    requires d.Valid() && (dec.Apply? ==> fetched.Some?)
    modifies d`store, d`nextRef, d`index, d`nextList, d`changed, d`removedPaths
    ensures d.Valid()
    ensures r.Fail? ==> (dec.Remove? || dec.Apply?) && (r.error == Inconsistent || r.error == StaleNode)
    ensures !dec.Remove? && !dec.Apply? ==>
              r == Pass && d.store == old(d.store) && d.index == old(d.index) && d.changed == old(d.changed)
              && d.removedPaths == old(d.removedPaths)
    ensures Performed(e, fetched, dec, old(d.store), old(d.index), old(d.removedPaths), r, d.store, d.index, d.removedPaths)
    ensures dec.Remove? ==> d.changed == old(d.changed)
  {
    r := Pass;
    if dec.Remove? {
      r := Changes.DeleteFile(d, e.objectId, {});
    } else if dec.Apply? {
      var item := fetched.value;
      var existing, synced;
      ghost var covered;
      r, existing, synced, covered := FileUpdate.UpdateFile(d, item, dec.parents, item.kind == Folder);
    }
  }

  /**
   * The start of one iteration: the iterator returns `e` (its token becomes
   * the last one), the event is decided, and an echoed local change is
   * consumed.
   */
  method TakeEvent(d: Drive, repo: Repo, e: ChangeEvent, st: State)
    returns (fetched: Option<RemoteObject>, dec: Decision, st': State)
    requires d.localRemoved == st.localRemoved && d.localUpdated == st.localUpdated
    modifies d`localRemoved, d`localUpdated, d`changesLast
    ensures d.changesLast == Some(e.token)
    ensures fetched == Fetch(repo, e) && (dec, st') == Step(repo, e, st)
    ensures d.localRemoved == st'.localRemoved && d.localUpdated == st'.localUpdated
  {
    d.changesLast := Some(e.token);
    fetched := Fetch(repo, e);
    var step := Step(repo, e, st);
    dec, st' := step.0, step.1;
    if dec.Remove? && dec.echo {
      d.localRemoved := d.localRemoved - {e.objectId};
    } else if dec.Echo? {
      d.localUpdated := d.localUpdated - {e.objectId};
    }
  }

  /**
   * The rest of one iteration once event `e` is decided: the drive operation
   * runs, then the chunk is saved when the decision calls for it; `performed`
   * and `opStore` are the operation's outcome and the store it left.
   */
  method PerformAndSave(d: Drive, e: ChangeEvent, fetched: Option<RemoteObject>, dec: Decision)
    returns (r: Outcome, ghost performed: Outcome, ghost opStore: Store)
    requires d.Valid() && d.changesActive && d.changesLast == Some(e.token) && (dec.Apply? ==> fetched.Some?)
    modifies d`store, d`persisted, d`nextRef, d`index, d`nextList, d`changed, d`removedPaths, d`checkpoints
    ensures d.Valid()
    ensures r.Fail? ==> Checkpoint(dec) && (r.error == Inconsistent || r.error == StaleNode)
    ensures r.Pass? ==> d.checkpoints == old(d.checkpoints) + if Checkpoint(dec) then [Some(e.token)] else []
    ensures !Checkpoint(dec) ==> d.store == old(d.store) && d.index == old(d.index) && d.persisted == old(d.persisted)
    ensures Performed(e, fetched, dec, old(d.store), old(d.index), old(d.removedPaths), performed, opStore, d.index,
                      d.removedPaths)
    ensures performed.Fail? ==> r == performed && d.store == opStore
    ensures performed.Pass? && Checkpoint(dec) ==>
              d.driveRef in opStore &&
              d.store == (if r.Pass? then opStore[d.driveRef := opStore[d.driveRef].(token := Some(e.token))] else opStore)
  {
    r := Perform(d, e, fetched, dec);
    performed, opStore := r, d.store;
    if r.Pass? && Checkpoint(dec) {
      ghost var i1, rp1 := d.index, d.removedPaths;
      r := d.SaveChunk();
      assert d.index == i1 && d.removedPaths == rp1;
    }
  }

  /**
   * One iteration of the loop: the event is taken and decided, the drive
   * operation runs, and the chunk is saved unless the event was not
   * syncable, skipped or suppressed.
   */
  method ApplyEvent(d: Drive, repo: Repo, e: ChangeEvent, st: State)
    returns (r: Outcome, dec: Decision, st': State, ghost performed: Outcome, ghost opStore: Store)
    requires d.Valid() && d.changesActive
    requires d.localRemoved == st.localRemoved && d.localUpdated == st.localUpdated
    modifies d`store, d`persisted, d`nextRef, d`index, d`nextList, d`changed, d`removedPaths,
             d`localRemoved, d`localUpdated, d`changesLast, d`checkpoints
    ensures d.Valid() && d.changesLast == Some(e.token)
    ensures (dec, st') == Step(repo, e, st)
    ensures d.localRemoved == st'.localRemoved && d.localUpdated == st'.localUpdated
    ensures r.Fail? ==> Checkpoint(dec) && (r.error == Inconsistent || r.error == StaleNode)
    ensures r.Pass? ==> d.checkpoints == old(d.checkpoints) + if Checkpoint(dec) then [Some(e.token)] else []
    ensures !Checkpoint(dec) ==> d.store == old(d.store) && d.index == old(d.index) && d.persisted == old(d.persisted)
    ensures Performed(e, Fetch(repo, e), dec, old(d.store), old(d.index), old(d.removedPaths), performed, opStore, d.index,
                      d.removedPaths)
    ensures performed.Fail? ==> r == performed && d.store == opStore
    ensures performed.Pass? && Checkpoint(dec) ==>
              d.driveRef in opStore &&
              d.store == (if r.Pass? then opStore[d.driveRef := opStore[d.driveRef].(token := Some(e.token))] else opStore)
  {
    var fetched;
    fetched, dec, st' := TakeEvent(d, repo, e, st);
    r, performed, opStore := PerformAndSave(d, e, fetched, dec);
  }

  /**
   * One turn of the loop of ChangesAlgorithm.syncFiles once `n` events were
   * applied: an interrupted thread stops it, otherwise event `n` is applied.
   */
  method Advance(d: Drive, repo: Repo, events: seq<ChangeEvent>, st0: State, n: nat, st: State,
                 ghost saved0: seq<Option<string>>)
    returns (r: Outcome, stop: bool, st': State)
    requires n < |events| && d.Valid() && d.changesActive
    requires st == Run(repo, events, st0, n).1
    requires d.localRemoved == st.localRemoved && d.localUpdated == st.localUpdated
    requires d.checkpoints == saved0 + Saved(repo, events, st0, n)
    modifies d`store, d`persisted, d`nextRef, d`index, d`nextList, d`changed, d`removedPaths,
             d`localRemoved, d`localUpdated, d`changesLast, d`checkpoints, d`polls
    ensures d.Valid() && d.changesActive && d.polls == old(d.polls) + 1
    ensures stop <==> old(d.polls) >= d.interruptAt
    ensures stop ==> r == Pass && d.changesLast == old(d.changesLast) && d.checkpoints == old(d.checkpoints)
    ensures !stop ==> d.changesLast == Some(events[n].token)
    ensures !stop && r.Pass? ==>
              && st' == Run(repo, events, st0, n + 1).1
              && d.localRemoved == st'.localRemoved && d.localUpdated == st'.localUpdated
              && d.checkpoints == saved0 + Saved(repo, events, st0, n + 1)
    ensures r.Fail? ==> r.error == Inconsistent || r.error == StaleNode
  {
    stop := d.Poll();
    if stop {
      return Pass, true, st;
    }
    r, st' := TakeTurn(d, repo, events, st0, n, st, saved0);
  }

  /** Event `n` applied after the first `n`: the loop state and checkpoints become those of `Run` and `Saved` for `n + 1`. */
  method TakeTurn(d: Drive, repo: Repo, events: seq<ChangeEvent>, st0: State, n: nat, st: State,
                  ghost saved0: seq<Option<string>>)
    returns (r: Outcome, st': State)
    requires n < |events| && d.Valid() && d.changesActive
    requires st == Run(repo, events, st0, n).1
    requires d.localRemoved == st.localRemoved && d.localUpdated == st.localUpdated
    requires d.checkpoints == saved0 + Saved(repo, events, st0, n)
    modifies d`store, d`persisted, d`nextRef, d`index, d`nextList, d`changed, d`removedPaths,
             d`localRemoved, d`localUpdated, d`changesLast, d`checkpoints
    ensures d.Valid() && d.changesLast == Some(events[n].token)
    ensures r.Pass? ==>
              && st' == Run(repo, events, st0, n + 1).1
              && d.localRemoved == st'.localRemoved && d.localUpdated == st'.localUpdated
              && d.checkpoints == saved0 + Saved(repo, events, st0, n + 1)
    ensures r.Fail? ==> r.error == Inconsistent || r.error == StaleNode
  {
    var dec;
    ghost var performed, opStore;
    r, dec, st', performed, opStore := ApplyEvent(d, repo, events[n], st);
    RunExtends(repo, events, st0, n, dec, st', saved0);
  }

  /** One more event taken as `Step` decides it extends `Run` and `Saved` by that event. */
  lemma RunExtends(repo: Repo, events: seq<ChangeEvent>, st0: State, n: nat, dec: Decision, st': State,
                   saved0: seq<Option<string>>)
    requires n < |events| && (dec, st') == Step(repo, events[n], Run(repo, events, st0, n).1)
    ensures st' == Run(repo, events, st0, n + 1).1
    ensures saved0 + Saved(repo, events, st0, n) + (if Checkpoint(dec) then [Some(events[n].token)] else []) ==
            saved0 + Saved(repo, events, st0, n + 1)
  {
    Assoc(saved0, Saved(repo, events, st0, n), if Checkpoint(dec) then [Some(events[n].token)] else []);
  }

  /**
   * The loop of ChangesAlgorithm.syncFiles: while events remain and the
   * thread is not interrupted, apply the next one, starting from the state
   * `st0`.
   */
  method ReplayEvents(d: Drive, repo: Repo, events: seq<ChangeEvent>, st0: State) returns (r: Outcome, n: nat)
    requires d.Valid() && d.changesActive && d.changesLast.None?
    requires d.localRemoved == st0.localRemoved && d.localUpdated == st0.localUpdated
    modifies d`store, d`persisted, d`nextRef, d`index, d`nextList, d`changed, d`removedPaths,
             d`localRemoved, d`localUpdated, d`changesLast, d`checkpoints, d`polls
    ensures d.Valid() && d.changesActive && n <= |events|
    ensures d.changesLast == if n == 0 then None else Some(events[n - 1].token)
    ensures n > 0 ==> old(d.polls) + n <= d.interruptAt
    ensures r.Pass? && n < |events| ==> old(d.polls) + n >= d.interruptAt
    ensures r.Fail? ==> n > 0 && (r.error == Inconsistent || r.error == StaleNode)
    ensures r.Pass? ==> d.checkpoints == old(d.checkpoints) + Saved(repo, events, st0, n)
  {
    var st := st0;
    n := 0;
    while n < |events|
      invariant n <= |events| && d.Valid() && d.changesActive
      invariant st == Run(repo, events, st0, n).1
      invariant d.localRemoved == st.localRemoved && d.localUpdated == st.localUpdated
      invariant d.checkpoints == old(d.checkpoints) + Saved(repo, events, st0, n)
      invariant d.changesLast == if n == 0 then None else Some(events[n - 1].token)
      invariant d.polls == old(d.polls) + n && (n > 0 ==> old(d.polls) + n <= d.interruptAt)
    {
      var stop;
      r, stop, st := Advance(d, repo, events, st0, n, st, old(d.checkpoints));
      if stop {
        return;
      }
      n := n + 1;
      if r.Fail? {
        return;
      }
    }
    r := Pass;
  }

  /** readLocalNodes, then the events replayed from `st0`. */
  method ReadAndReplay(d: Drive, repo: Repo, events: seq<ChangeEvent>, st0: State) returns (r: Outcome, n: nat)
    requires d.Valid() && d.changesActive && d.changesLast.None?
    requires d.localRemoved == st0.localRemoved && d.localUpdated == st0.localUpdated
    modifies d`store, d`persisted, d`nextRef, d`index, d`nextList, d`changed, d`removedPaths,
             d`localRemoved, d`localUpdated, d`changesLast, d`checkpoints, d`polls
    ensures d.Valid() && d.changesActive && n <= |events|
    ensures d.changesLast == if n == 0 then None else Some(events[n - 1].token)
    ensures n > 0 ==> old(d.polls) + n <= d.interruptAt
    ensures r.Pass? && n < |events| ==> old(d.polls) + n >= d.interruptAt
    ensures r.Fail? ==> n > 0 && (r.error == Inconsistent || r.error == StaleNode)
    ensures r.Pass? ==> d.checkpoints == old(d.checkpoints) + Saved(repo, events, st0, n)
  {
    d.ReadLocalNodes();
    r, n := ReplayEvents(d, repo, events, st0);
  }

  /**
   * ChangesAlgorithm.syncFiles over the events the change log holds after the
   * local token: the run starts from an empty memory of previous events, and
   * the index is read from the store first when there is any event. Once `n`
   * events were taken, the decisions are the plan's first `n`, the last
   * token is the `n`-th event's, and the saved chunks carry the tokens of the
   * events that save one.
   */
  method SyncChanges(d: Drive, repo: Repo, events: seq<ChangeEvent>) returns (r: Outcome, n: nat)
    requires d.Valid()
    modifies d`store, d`persisted, d`nextRef, d`index, d`nextList, d`changed, d`removedPaths,
             d`localRemoved, d`localUpdated, d`changesActive, d`changesLast, d`checkpoints, d`polls
    ensures d.Valid() && d.changesActive && n <= |events|
    ensures d.changesLast == if n == 0 then None else Some(events[n - 1].token)
    ensures n > 0 ==> old(d.polls) + n <= d.interruptAt
    ensures r.Pass? && n < |events| ==> old(d.polls) + n >= d.interruptAt
    ensures r.Fail? ==> n > 0 && (r.error == Inconsistent || r.error == StaleNode)
    ensures r.Pass? ==>
              d.checkpoints == old(d.checkpoints) + Saved(repo, events, State(Forgotten, old(d.localRemoved), old(d.localUpdated)), n)
  {
    d.changesActive, d.changesLast := true, None;
    if |events| == 0 {
      return Pass, 0;
    }
    r, n := ReadAndReplay(d, repo, events, State(Forgotten, d.localRemoved, d.localUpdated));
  }
}
