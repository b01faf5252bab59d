/**
 * The Connect command (Connect.fetchFiles/fetchChilds): the first fetch of a
 * drive walks the repository depth first from its root folder, creates a
 * local node for every listed item except relationships, reports each as
 * changed and saves after each, and, unless interrupted, stores the change
 * token the repository had when the fetch began.
 */
module Connect {
  import opened Wrappers
  import opened Remote
  import opened LocalStore
  import opened LocalDrive
  import Seqs

  /**
   * The objects fetchChilds reports for the first `n` children of `l`, in
   * the order it reports them.
   */
  function Fetched(l: Listing, n: nat): (r: seq<RemoteObject>)
    requires n <= |l.children|
    ensures forall x :: x in r ==> x.kind != Relationship
    decreases l, n
  {
    if n == 0 then []
    else Fetched(l, n - 1) + StepItems(l.children[n - 1])
  }

  /**
   * What one listed child contributes: nothing for a relationship, otherwise
   * the child itself followed, for a folder, by everything fetched below it.
   */
  function StepItems(c: Listing): (r: seq<RemoteObject>)
    ensures forall x :: x in r ==> x.kind != Relationship
    decreases c, |c.children| + 1
  {
    if c.item.kind == Relationship then []
    else [c.item] + (if c.item.kind == Folder then Fetched(c, |c.children|) else [])
  }

  /** Everything fetchChilds reports for the listing `l`. */
  function FetchedAll(l: Listing): seq<RemoteObject> {
    Fetched(l, |l.children|)
  }

  /** Every child of the listing that is not a relationship is reported. */
  lemma {:induction false} FetchedCovers(l: Listing, n: nat, k: nat)
    requires k < n <= |l.children| && l.children[k].item.kind != Relationship
    ensures l.children[k].item in Fetched(l, n)
  {
    if k < n - 1 {
      FetchedCovers(l, n - 1, k);
    } else {
      assert StepItems(l.children[k])[0] == l.children[k].item;
    }
  }

  /** Fetching more children only extends what was reported. */
  lemma {:induction false} FetchedPrefix(l: Listing, m: nat, n: nat)
    requires m <= n <= |l.children|
    ensures Fetched(l, m) <= Fetched(l, n)
    decreases n
  {
    if m < n {
      FetchedPrefix(l, m, n - 1);
    }
  }

  /** The reported files are the objects, one for one: same id, same kind, each changed. */
  predicate Matches(files: seq<LocalFile>, items: seq<RemoteObject>) {
    && |files| == |items|
    && forall k :: 0 <= k < |files| ==>
         files[k].id == items[k].id && files[k].isFolder == (items[k].kind == Folder) && files[k].changed
  }

  lemma {:induction false} MatchesWithin(files: seq<LocalFile>, f: seq<RemoteObject>, g: seq<RemoteObject>, got: nat)
    requires f <= g && got <= |f| && Matches(files, f[..got])
    ensures got <= |g| && Matches(files, g[..got])
  {
    assert f[..got] == g[..got];
  }

  lemma {:induction false} MatchesAppend(a: seq<LocalFile>, x: seq<RemoteObject>, b: seq<LocalFile>, y: seq<RemoteObject>)
    requires Matches(a, x) && Matches(b, y)
    ensures Matches(a + b, x + y)
  {
    forall k | 0 <= k < |a + b|
      ensures (a + b)[k].id == (x + y)[k].id && (a + b)[k].isFolder == ((x + y)[k].kind == Folder) && (a + b)[k].changed
    {
      if k >= |a| {
        assert (a + b)[k] == b[k - |a|] && (x + y)[k] == y[k - |a|];
      }
    }
  }

  /**
   * The body of fetchChilds for an item that is not a relationship: the
   * item's node is opened or created under `parent`; an item updateItem does
   * not report as changed was already there, which fetchChilds rejects
   * (CMISException); a changed one is reported and the session saved.
   */
  method FetchItem(d: Drive, item: RemoteObject, parent: NodeRef) returns (r: Result<LocalFile>)
    requires d.Valid() && !d.changesActive
    modifies d`store, d`nextRef, d`changed, d`persisted, d`checkpoints
    ensures d.Valid()
    ensures r.Ok? ==> && d.changed == old(d.changed) + [r.value]
                      && Matches([r.value], [item]) && Live(d.store, r.value.node)
    ensures r.Err? ==> d.changed == old(d.changed) && (r.error == Inconsistent || r.error == StaleNode)
  {
    r := d.UpdateItem(item, parent, None);
    if r.Err? {
      return;
    }
    if !r.value.changed {
      return Err(Inconsistent);
    }
    d.AddChanged(r.value);
    var saved := d.SaveChunk();
  }

  /**
   * One turn of the loop of fetchChilds: the interruption check, then the
   * `i`-th child of `l` under `parent`, skipped when it is a relationship,
   * and for a folder everything below it.
   */
  method FetchChild(d: Drive, l: Listing, i: nat, parent: NodeRef)
    returns (r: Outcome, stop: bool, more: seq<LocalFile>, ghost got: nat)
    requires d.Valid() && !d.changesActive && i < |l.children|
    modifies d`store, d`nextRef, d`changed, d`persisted, d`checkpoints, d`polls
    ensures d.Valid() && old(d.polls) < d.polls
    ensures stop <==> old(d.polls) >= d.interruptAt
    ensures stop ==> r.Pass? && more == []
    ensures d.changed == old(d.changed) + more
    ensures got <= |StepItems(l.children[i])| && Matches(more, StepItems(l.children[i])[..got])
    ensures r.Pass? && d.polls <= d.interruptAt ==> got == |StepItems(l.children[i])|
    ensures r.Fail? ==> r.error == Inconsistent || r.error == StaleNode
    decreases l, 0
  {
    stop := d.Poll();
    if stop {
      return Pass, true, [], 0;
    }
    var c := l.children[i];
    if c.item.kind == Relationship {
      return Pass, false, [], 0;
    }
    var f := FetchItem(d, c.item, parent);
    if f.Err? {
      return Fail(f.error), false, [], 0;
    }
    r, more, got := Pass, [f.value], 1;
    assert f.value.isFolder == (c.item.kind == Folder) by {
      assert [f.value][0] == f.value && [c.item][0] == c.item;
    }
    assert StepItems(c) == [c.item] + (if f.value.isFolder then FetchedAll(c) else []);
    if f.value.isFolder {
      var sub;
      ghost var subGot;
      r, sub, subGot := FetchChilds(d, c, f.value.node);
      Seqs.Assoc(old(d.changed), more, sub);
      MatchesAppend(more, [c.item], sub, FetchedAll(c)[..subGot]);
      assert StepItems(c)[..1 + subGot] == [c.item] + FetchedAll(c)[..subGot];
      more, got := more + sub, 1 + subGot;
    }
  }

  /**
   * fetchChilds(fileId, parent): the children of `l` in listing order, each
   * fetched under `parent`, until the thread is interrupted. `added` is what
   * the command reported as changed: always a prefix of the listing's
   * fetched objects, and all of them when the fetch passed uninterrupted.
   */
  method FetchChilds(d: Drive, l: Listing, parent: NodeRef) returns (r: Outcome, added: seq<LocalFile>, ghost got: nat)
    requires d.Valid() && !d.changesActive
    modifies d`store, d`nextRef, d`changed, d`persisted, d`checkpoints, d`polls
    ensures d.Valid() && old(d.polls) <= d.polls
    ensures d.changed == old(d.changed) + added
    ensures got <= |FetchedAll(l)| && Matches(added, FetchedAll(l)[..got])
    ensures r.Pass? && d.polls <= d.interruptAt ==> got == |FetchedAll(l)|
    ensures r.Fail? ==> r.error == Inconsistent || r.error == StaleNode
    decreases l, 1
  {
    var i := 0;
    r, added, got := Pass, [], 0;
    while i < |l.children|
      invariant i <= |l.children| && r == Pass
      invariant d.Valid() && !d.changesActive && old(d.polls) <= d.polls
      invariant d.changed == old(d.changed) + added
      invariant got <= |Fetched(l, i)| && Matches(added, Fetched(l, i)[..got])
      invariant d.polls <= d.interruptAt ==> got == |Fetched(l, i)|
    {
      var stop, more;
      ghost var g;
      r, stop, more, g := FetchChild(d, l, i, parent);
      if stop {
        FetchedPrefix(l, i, |l.children|);
        MatchesWithin(added, Fetched(l, i), FetchedAll(l), got);
        return;
      }
      Seqs.Assoc(old(d.changed), added, more);
      MatchesAppend(added, Fetched(l, i), more, StepItems(l.children[i])[..g]);
      assert Fetched(l, i + 1)[..got + g] == Fetched(l, i) + StepItems(l.children[i])[..g];
      added, got := added + more, got + g;
      if r.Fail? {
        FetchedPrefix(l, i + 1, |l.children|);
        MatchesWithin(added, Fetched(l, i + 1), FetchedAll(l), got);
        return;
      }
      i := i + 1;
    }
  }

  /**
   * Connect.fetchFiles: the repository's latest token and the start time are
   * taken first; the root folder's listing is fetched under the drive node;
   * unless the thread was interrupted by then, the drive takes that token
   * and time. A committed fetch reported every fetched object.
   */
  method FetchFiles(d: Drive, repo: Repo, now: int)
    returns (r: Outcome, committed: bool, ghost added: seq<LocalFile>, ghost got: nat)
    requires d.Valid()
    modifies d`store, d`nextRef, d`changed, d`persisted, d`checkpoints, d`polls, d`changeId, d`changesActive
    ensures d.Valid()
    ensures d.changed == old(d.changed) + added
    ensures got <= |FetchedAll(repo.root)| && Matches(added, FetchedAll(repo.root)[..got])
    ensures committed ==> r.Pass? && got == |FetchedAll(repo.root)|
    ensures committed ==> d.store[d.driveRef].token == Some(repo.latestToken) && d.changeId == now
    ensures r.Pass? && !committed ==> d.polls > d.interruptAt && d.changeId == old(d.changeId)
    ensures r.Fail? ==> !committed && (r.error == Inconsistent || r.error == StaleNode)
  {
    var token := repo.latestToken;
    committed := false;
    d.changesActive := false;
    r, added, got := FetchChilds(d, repo.root, d.driveRef);
    if r.Fail? {
      return;
    }
    var stop := d.Poll();
    if !stop {
      r := d.Commit(token, now);
      committed := r.Pass?;
    }
  }
}
