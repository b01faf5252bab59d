/**
 * The per-event decisions of the change-log synchronization
 * (Sync.ChangesAlgorithm.syncFiles): which branch an event takes, what the
 * loop remembers of it, and the plan a whole run of events follows.
 */
module ChangeLog {
  import opened Wrappers
  import opened Remote

  /** What the loop remembers of the last processed event (previousItem, previousEvent, previousParentIds). */
  datatype Memory = Memory(item: Option<RemoteObject>, event: Option<ChangeEvent>, parents: Option<seq<Id>>)

  const Forgotten := Memory(None, None, None)

  /** The branch taken for one change event. */
  datatype Decision =
    | Unsupported          // not a syncable change: nothing applied
    | Remove(echo: bool)   // deleted or not found remotely: deleteFile with no parents; `echo` when a local removal
    | SkipRoot             // a folder without a parent: the root folder
    | SkipRelationship     // a relationship object
    | SkipOrphan           // a fileable item filed nowhere
    | Echo                 // the change of a local update coming back: consumed, nothing applied
    | Suppress             // taken for a version of the item created by the previous event
    | Apply(parents: seq<Id>)  // updateFile on these parents

  /** Decisions that leave the memory and the checkpoint untouched (the `continue` branches). */
  predicate Skipped(d: Decision) {
    d.SkipRoot? || d.SkipRelationship? || d.SkipOrphan?
  }

  /** What the loop fetches for an event: nothing for an unsyncable or deleted change, nothing when not found. */
  function Fetch(repo: Repo, e: ChangeEvent): (r: Option<RemoteObject>)
    ensures r.Some? <==> e.syncable && e.changeType != Deleted && e.objectId in repo.objects
    ensures r.Some? ==> r.value == repo.objects[e.objectId].item
  {
    if !e.syncable || e.changeType == Deleted then None
    else
      var got := GetObject(repo, e.objectId);
      if got.Ok? then Some(got.value) else None
  }

  /** Every id of `previous` is among `current` (List.containsAll). */
  predicate ContainsAll(current: seq<Id>, previous: seq<Id>) {
    forall p :: p in previous ==> p in current
  }

  /**
   * The version workaround: the previous processed event created an item of the
   * same name, and the current item is filed under at least all of its parents.
   */
  predicate LooksLikeVersion(mem: Memory, item: RemoteObject, parents: seq<Id>) {
    && mem.item.Some? && item.name == mem.item.value.name
    && mem.event.Some? && mem.event.value.changeType == Created
    && mem.parents.Some? && ContainsAll(parents, mem.parents.value)
  }

  /** The branch the loop body takes for `e`, given what was fetched for it. */
  function Decide(e: ChangeEvent, fetched: Option<RemoteObject>, mem: Memory,
                  localRemoved: set<Id>, localUpdated: set<Id>): (d: Decision)
    ensures d.Unsupported? <==> !e.syncable
    ensures d.Remove? <==> e.syncable && fetched.None?
    ensures d.Remove? ==> (d.echo <==> e.objectId in localRemoved)
    ensures Skipped(d) ==> e.syncable && fetched.Some? &&
                           (fetched.value.kind == Relationship || |fetched.value.parents| == 0)
    ensures d.Echo? ==> e.syncable && fetched.Some? && e.objectId in localUpdated
    ensures d.Suppress? ==> e.syncable && fetched.Some? && e.objectId !in localUpdated &&
                            LooksLikeVersion(mem, fetched.value, ParentIds(fetched.value))
    ensures d.Apply? <==> && e.syncable && fetched.Some?
                          && fetched.value.kind != Relationship && |fetched.value.parents| > 0
                          && e.objectId !in localUpdated
                          && !LooksLikeVersion(mem, fetched.value, ParentIds(fetched.value))
    ensures d.Apply? ==> d.parents == ParentIds(fetched.value) && |d.parents| > 0
  {
    if !e.syncable then Unsupported
    else if fetched.None? then Remove(e.objectId in localRemoved)
    else
      var item := fetched.value;
      if item.kind == Folder && |item.parents| == 0 then SkipRoot
      else if item.kind == Relationship then SkipRelationship
      else if |item.parents| == 0 then SkipOrphan
      else if e.objectId in localUpdated then Echo
      else
        var parents := ParentIds(item);
        if LooksLikeVersion(mem, item, parents) then Suppress
        else Apply(parents)
  }

  /** The memory after an event: kept on a skip, forgotten on a suppression, else this event. */
  function Remember(mem: Memory, e: ChangeEvent, fetched: Option<RemoteObject>, d: Decision): (m: Memory)
    requires (d.Echo? || d.Apply?) ==> fetched.Some?
    ensures Skipped(d) ==> m == mem
    ensures d.Suppress? ==> m == Forgotten
    ensures !Skipped(d) && !d.Suppress? ==> m.event == Some(e) && m.parents.Some?
    ensures m.item.Some? ==> (d.Echo? || d.Apply? || Skipped(d))
    ensures (d.Echo? || d.Apply?) ==> m.item == fetched && m.parents == Some(ParentIds(fetched.value))
    ensures (d.Unsupported? || d.Remove?) ==> m == Memory(None, Some(e), Some([]))
  {
    if Skipped(d) then mem
    else if d.Suppress? then Forgotten
    else if d.Unsupported? || d.Remove? then Memory(None, Some(e), Some([]))
    else Memory(fetched, Some(e), Some(ParentIds(fetched.value)))
  }

  /** The loop state carried from one event to the next. */
  datatype State = State(mem: Memory, localRemoved: set<Id>, localUpdated: set<Id>)

  /** One iteration: the decision, then the remembered event and the consumed local change. */
  function Step(repo: Repo, e: ChangeEvent, st: State): (r: (Decision, State))
    ensures r.0 == Decide(e, Fetch(repo, e), st.mem, st.localRemoved, st.localUpdated)
    ensures r.1.mem == Remember(st.mem, e, Fetch(repo, e), r.0)
    ensures r.1.localRemoved == (if r.0.Remove? && r.0.echo then st.localRemoved - {e.objectId} else st.localRemoved)
    ensures r.1.localUpdated == (if r.0.Echo? then st.localUpdated - {e.objectId} else st.localUpdated)
  {
    var fetched := Fetch(repo, e);
    var d := Decide(e, fetched, st.mem, st.localRemoved, st.localUpdated);
    var removed := if d.Remove? && d.echo then st.localRemoved - {e.objectId} else st.localRemoved;
    var updated := if d.Echo? then st.localUpdated - {e.objectId} else st.localUpdated;
    (d, State(Remember(st.mem, e, fetched, d), removed, updated))
  }

  /**
   * The decisions of a run over `events`: `ds[i]` is the decision `Step` takes
   * for `events[i]` in the state left by the first `i` events (`RunFollowsPlan`
   * states this against `Run`).
   */
  function Plan(repo: Repo, events: seq<ChangeEvent>, st: State): (ds: seq<Decision>)
    ensures |ds| == |events|
    decreases |events|
  {
    if |events| == 0 then []
    else
      var step := Step(repo, events[0], st);
      [step.0] + Plan(repo, events[1..], step.1)
  }

  predicate SameName(a: Option<RemoteObject>, b: Option<RemoteObject>) {
    a.Some? && b.Some? && a.value.name == b.value.name
  }

  /** Every decision strictly between `lo` and `hi` is a skip. */
  predicate SkippedBetween(ds: seq<Decision>, lo: int, hi: int) {
    forall k :: lo < k < hi && 0 <= k < |ds| ==> Skipped(ds[k])
  }

  /**
   * Event `j` created and applied (or echoed) an item named like event `i`'s,
   * whose parents are all among event `i`'s item's parents, with only skips in between.
   */
  predicate WitnessAt(repo: Repo, events: seq<ChangeEvent>, ds: seq<Decision>, j: int, i: int) {
    && 0 <= j < i < |events| && |ds| == |events|
    && (ds[j].Echo? || ds[j].Apply?) && events[j].changeType == Created
    && SameName(Fetch(repo, events[j]), Fetch(repo, events[i]))
    && ContainsAll(ParentIds(Fetch(repo, events[i]).value), ParentIds(Fetch(repo, events[j]).value))
    && SkippedBetween(ds, j, i)
  }

  /**
   * The starting memory already holds a created item named like event `i`'s,
   * with parents all among event `i`'s item's parents, with only skips before `i`.
   */
  predicate MemoryWitness(repo: Repo, events: seq<ChangeEvent>, ds: seq<Decision>, mem: Memory, i: int) {
    && 0 <= i < |events|
    && SameName(mem.item, Fetch(repo, events[i]))
    && mem.event.Some? && mem.event.value.changeType == Created
    && mem.parents.Some? && ContainsAll(ParentIds(Fetch(repo, events[i]).value), mem.parents.value)
    && SkippedBetween(ds, -1, i)
  }

  /** A witness in the run after the first event is a witness, one place later, in the whole run. */
  lemma {:induction false} WitnessShift(repo: Repo, events: seq<ChangeEvent>, ds: seq<Decision>, j: int, i: int)
    requires |events| > 0 && |ds| == |events| && 0 < i
    requires WitnessAt(repo, events[1..], ds[1..], j, i - 1)
    ensures WitnessAt(repo, events, ds, j + 1, i)
  {
    assert events[1..][j] == events[j + 1];
    assert events[1..][i - 1] == events[i];
    forall k | j + 1 < k < i && 0 <= k < |ds|
      ensures Skipped(ds[k])
    {
      assert ds[1..][k - 1] == ds[k];
    }
  }

  /** A memory witness after a skipped first event is a memory witness of the whole run. */
  lemma {:induction false} MemoryShift(repo: Repo, events: seq<ChangeEvent>, ds: seq<Decision>, mem: Memory, i: int)
    requires |events| > 0 && |ds| == |events| && 0 < i && Skipped(ds[0])
    requires MemoryWitness(repo, events[1..], ds[1..], mem, i - 1)
    ensures MemoryWitness(repo, events, ds, mem, i)
  {
    assert events[1..][i - 1] == events[i];
    forall k | -1 < k < i && 0 <= k < |ds|
      ensures Skipped(ds[k])
    {
      if k > 0 {
        assert ds[1..][k - 1] == ds[k];
      }
    }
  }

  /** The memory a processed CREATED first event leaves, when it witnesses event `i`, makes that first event the witness. */
  lemma {:induction false} MemoryIsFirst(repo: Repo, events: seq<ChangeEvent>, ds: seq<Decision>, mem: Memory, i: int)
    requires |events| > 0 && |ds| == |events| && 0 < i && (ds[0].Echo? || ds[0].Apply?)
    requires Fetch(repo, events[0]).Some?
    requires MemoryWitness(repo, events[1..], ds[1..], Remember(mem, events[0], Fetch(repo, events[0]), ds[0]), i - 1)
    ensures WitnessAt(repo, events, ds, 0, i)
  {
    assert events[1..][i - 1] == events[i];
    forall k | 0 < k < i && 0 <= k < |ds|
      ensures Skipped(ds[k])
    {
      assert ds[1..][k - 1] == ds[k];
    }
  }

  /**
   * Every suppressed event has a witness: an earlier event that created and
   * applied (or echoed) an item of the same name, with only skipped events in
   * between, unless the starting memory itself is that witness.
   */
  lemma {:induction false} SuppressHasWitness(repo: Repo, events: seq<ChangeEvent>, st: State, i: int)
    requires 0 <= i < |events|
    requires Plan(repo, events, st)[i].Suppress?
    ensures || (exists j :: WitnessAt(repo, events, Plan(repo, events, st), j, i))
            || MemoryWitness(repo, events, Plan(repo, events, st), st.mem, i)
    decreases i
  {
    var ds := Plan(repo, events, st);
    var step := Step(repo, events[0], st);
    var d := step.0;
    var rest := Plan(repo, events[1..], step.1);
    assert ds == [d] + rest;
    assert ds[1..] == rest;
    if i == 0 {
      assert MemoryWitness(repo, events, ds, st.mem, i);
    } else {
      var tail := events[1..];
      assert tail[i - 1] == events[i];
      var prev := i - 1;
      SuppressHasWitness(repo, tail, step.1, prev);
      if exists j :: WitnessAt(repo, tail, rest, j, prev) {
        var j :| WitnessAt(repo, tail, rest, j, prev);
        WitnessShift(repo, events, ds, j, i);
      } else if Skipped(d) {
        MemoryShift(repo, events, ds, st.mem, i);
      } else {
        MemoryIsFirst(repo, events, ds, st.mem, i);
      }
    }
  }

  /** Starting from an empty memory, a suppressed event always follows a created one of the same name. */
  lemma {:induction false} SuppressFollowsCreation(repo: Repo, events: seq<ChangeEvent>, localRemoved: set<Id>, localUpdated: set<Id>, i: int)
    requires 0 <= i < |events|
    requires Plan(repo, events, State(Forgotten, localRemoved, localUpdated))[i].Suppress?
    ensures exists j :: && 0 <= j < i && events[j].changeType == Created
                        && SameName(Fetch(repo, events[j]), Fetch(repo, events[i]))
                        && ContainsAll(ParentIds(Fetch(repo, events[i]).value), ParentIds(Fetch(repo, events[j]).value))
  {
    SuppressHasWitness(repo, events, State(Forgotten, localRemoved, localUpdated), i);
  }

  /** A suppression forgets the witness: the next event is never suppressed too. */
  lemma {:induction false} NoSuppressTwiceInARow(repo: Repo, events: seq<ChangeEvent>, localRemoved: set<Id>, localUpdated: set<Id>, i: int)
    requires 0 <= i < |events| - 1
    requires Plan(repo, events, State(Forgotten, localRemoved, localUpdated))[i].Suppress?
    ensures !Plan(repo, events, State(Forgotten, localRemoved, localUpdated))[i + 1].Suppress?
  {
    var ds := Plan(repo, events, State(Forgotten, localRemoved, localUpdated));
    if ds[i + 1].Suppress? {
      assert !Skipped(ds[i]);
      SuppressHasWitness(repo, events, State(Forgotten, localRemoved, localUpdated), i + 1);
    }
  }

  /**
   * The workaround tests containment, not overlap: a same-named item created
   * under {p, q} does not suppress an update filed only under p.
   */
  lemma {:induction false} OverlapIsNotEnough(item: RemoteObject, created: RemoteObject, e: ChangeEvent, c: ChangeEvent)
    requires e.syncable && c.changeType == Created
    requires item.kind == Document && item.parents == ["p"] && created.name == item.name
    ensures Decide(e, Some(item), Memory(Some(created), Some(c), Some(["p", "q"])), {}, {}).Apply?
  {
    assert "q" !in ParentIds(item);
  }

  /**
   * The repository sends one CREATED event per version: three identical
   * creations of a document apply the first, suppress the second, and apply
   * the third, because the suppression forgot the first.
   */
  lemma {:induction false} ThreeCreationsApplySuppressApply(repo: Repo, doc: RemoteObject)
    requires doc.kind == Document && doc.parents == ["p"]
    requires "x" in repo.objects && repo.objects["x"].item == doc
    ensures
      var e := ChangeEvent(Created, "x", true, "t");
      Plan(repo, [e, e, e], State(Forgotten, {}, {})) == [Apply(["p"]), Suppress, Apply(["p"])]
  {
    var e := ChangeEvent(Created, "x", true, "t");
    assert ParentIds(doc) == ["p"];
    var s1 := Step(repo, e, State(Forgotten, {}, {}));
    assert s1.0 == Apply(["p"]);
    var s2 := Step(repo, e, s1.1);
    assert s2.0 == Suppress;
    var s3 := Step(repo, e, s2.1);
    assert s3.0 == Apply(["p"]);
    assert [e, e, e][1..] == [e, e];
    assert [e, e][1..] == [e];
    assert Plan(repo, [e], s2.1) == [s3.0] + Plan(repo, [], s3.1);
    assert Plan(repo, [e, e], s1.1) == [s2.0] + Plan(repo, [e], s2.1);
    assert Plan(repo, [e, e, e], State(Forgotten, {}, {})) == [s1.0] + Plan(repo, [e, e], s1.1);
  }

  /** The decisions after which the loop saves a chunk: every syncable event it neither skips nor suppresses. */
  predicate Checkpoint(d: Decision) {
    d.Remove? || d.Echo? || d.Apply?
  }

  /** The tokens the saved chunks store, one per event whose decision saves a chunk, in order. */
  function SavedTokens(events: seq<ChangeEvent>, ds: seq<Decision>): (r: seq<Option<string>>)
    requires |ds| == |events|
    ensures |r| <= |events|
    ensures forall t :: t in r ==> exists k :: 0 <= k < |events| && Checkpoint(ds[k]) && t == Some(events[k].token)
  {
    if |events| == 0 then []
    else
      var last := |events| - 1;
      var init := SavedTokens(events[..last], ds[..last]);
      assert forall t :: t in init ==> exists k :: 0 <= k < last && Checkpoint(ds[k]) && t == Some(events[k].token);
      init + if Checkpoint(ds[last]) then [Some(events[last].token)] else []
  }

  /** The decisions of a run from event `i` on: the decision of event `i`, then those of the rest. */
  lemma {:induction false} PlanUnfold(repo: Repo, events: seq<ChangeEvent>, i: nat, st: State)
    requires i < |events|
    ensures Plan(repo, events[i..], st) ==
            [Step(repo, events[i], st).0] + Plan(repo, events[i + 1..], Step(repo, events[i], st).1)
  {
    assert events[i..][1..] == events[i + 1..];
  }

  /** One more event: its token joins the saved ones exactly when its decision saves a chunk. */
  lemma {:induction false} SavedTokensSnoc(events: seq<ChangeEvent>, ds: seq<Decision>, i: nat)
    requires |ds| == |events| && i < |events|
    ensures SavedTokens(events[..i + 1], ds[..i + 1]) ==
            SavedTokens(events[..i], ds[..i]) + if Checkpoint(ds[i]) then [Some(events[i].token)] else []
  {
    assert events[..i + 1][..i] == events[..i];
    assert ds[..i + 1][..i] == ds[..i];
  }

  /** The decisions for the first `n` events, from the state `st`, and the state they leave. */
  function Run(repo: Repo, events: seq<ChangeEvent>, st: State, n: nat): (r: (seq<Decision>, State))
    requires n <= |events|
    ensures |r.0| == n
  {
    if n == 0 then ([], st)
    else
      var prev := Run(repo, events, st, n - 1);
      var step := Step(repo, events[n - 1], prev.1);
      (prev.0 + [step.0], step.1)
  }

  /** The tokens the chunks saved during the first `n` events carry: one per event whose decision saves a chunk. */
  function Saved(repo: Repo, events: seq<ChangeEvent>, st: State, n: nat): seq<Option<string>>
    requires n <= |events|
  {
    if n == 0 then []
    else
      var step := Step(repo, events[n - 1], Run(repo, events, st, n - 1).1);
      Saved(repo, events, st, n - 1) + if Checkpoint(step.0) then [Some(events[n - 1].token)] else []
  }

  /** Running the first `n` events and planning the rest gives the plan of the whole run. */
  lemma {:induction false} RunFollowsPlan(repo: Repo, events: seq<ChangeEvent>, st: State, n: nat)
    requires n <= |events|
    ensures var r := Run(repo, events, st, n);
            r.0 + Plan(repo, events[n..], r.1) == Plan(repo, events, st)
  {
    if n == 0 {
      assert events[0..] == events;
    } else {
      var prev := Run(repo, events, st, n - 1);
      RunFollowsPlan(repo, events, st, n - 1);
      PlanUnfold(repo, events, n - 1, prev.1);
      var step := Step(repo, events[n - 1], prev.1);
      assert (prev.0 + [step.0]) + Plan(repo, events[n..], step.1) == prev.0 + ([step.0] + Plan(repo, events[n..], step.1));
    }
  }

  /** The saved tokens of a run are those SavedTokens takes from the plan's decisions. */
  lemma {:induction false} SavedFollowsPlan(repo: Repo, events: seq<ChangeEvent>, st: State, n: nat)
    requires n <= |events|
    ensures Saved(repo, events, st, n) == SavedTokens(events[..n], Plan(repo, events, st)[..n])
  {
    if n > 0 {
      var ds := Plan(repo, events, st);
      SavedFollowsPlan(repo, events, st, n - 1);
      var prev := Run(repo, events, st, n - 1);
      RunFollowsPlan(repo, events, st, n - 1);
      PlanUnfold(repo, events, n - 1, prev.1);
      assert ds[n - 1] == Step(repo, events[n - 1], prev.1).0 by {
        assert ds[n - 1] == (prev.0 + Plan(repo, events[n - 1..], prev.1))[n - 1];
      }
      SavedTokensSnoc(events, ds, n - 1);
    }
  }
}
