/** Account-data updates that overlap. An update takes no lock: it takes a position, writes its entry,
    looks up the entry the index names, repoints the index and removes the entry it found. A slot and a
    position stand for the key they are encoded in, which is injective. */
module UpdateRaces {
  import opened Wrappers

  type Slot = nat
  type Task = nat
  type Value = string

  /** How far an update has come; `prev` is what it found in the index. */
  datatype Stage = Counted | Written | Looked(prev: Option<nat>) | Repointed(prev: Option<nat>) | Finished

  datatype Job = Job(slot: Slot, count: nat, value: Value, stage: Stage)

  /** The last two are history. A slot is `stale` when an update has repointed it that had found another
      entry than the one it took the index away from, and `behind` when the last update to repoint it has
      an earlier position than one that did so before. */
  datatype State = State(
    counter: nat,
    data: map<(Slot, nat), Value>,
    index: map<Slot, nat>,
    jobs: map<Task, Job>,
    stale: set<Slot>,
    behind: set<Slot>)

  datatype Event =
    | Tick
    | Begin(t: Task, slot: Slot, value: Value)
    | WriteEntry(t: Task)
    | LookUp(t: Task)
    | Repoint(t: Task)
    | RemoveOld(t: Task)

  const Init := State(0, map[], map[], map[], {}, {})

  predicate At(s: State, t: Task, stage: Stage) {
    t in s.jobs && s.jobs[t].stage == stage
  }

  predicate Enabled(s: State, e: Event) {
    match e
    case Tick => true
    case Begin(t, _, _) => t !in s.jobs
    case WriteEntry(t) => At(s, t, Counted)
    case LookUp(t) => At(s, t, Written)
    case Repoint(t) => t in s.jobs && s.jobs[t].stage.Looked?
    case RemoveOld(t) => t in s.jobs && s.jobs[t].stage.Repointed?
  }

  function Lookup(index: map<Slot, nat>, slot: Slot): Option<nat> {
    if slot in index then Some(index[slot]) else None
  }

  predicate HasRepointed(s: State, t: Task) {
    t in s.jobs && (s.jobs[t].stage.Repointed? || s.jobs[t].stage.Finished?)
  }

  predicate LaterHasRepointed(s: State, job: Job) {
    exists t :: t in s.jobs && HasRepointed(s, t) && s.jobs[t].slot == job.slot && s.jobs[t].count > job.count
  }

  function Advance(s: State, t: Task, stage: Stage): State
    requires t in s.jobs
  {
    s.(jobs := s.jobs[t := s.jobs[t].(stage := stage)])
  }

  function Apply(s: State, e: Event): State
    requires Enabled(s, e)
  {
    match e
    case Tick => s.(counter := s.counter + 1)
    case Begin(t, slot, value) =>
      s.(counter := s.counter + 1, jobs := s.jobs[t := Job(slot, s.counter + 1, value, Counted)])
    case WriteEntry(t) =>
      var job := s.jobs[t];
      Advance(s, t, Written).(data := s.data[(job.slot, job.count) := job.value])
    case LookUp(t) => Advance(s, t, Looked(Lookup(s.index, s.jobs[t].slot)))
    case Repoint(t) =>
      var job := s.jobs[t];
      Advance(s, t, Repointed(job.stage.prev)).(
        index := s.index[job.slot := job.count],
        stale := if job.stage.prev != Lookup(s.index, job.slot) then s.stale + {job.slot} else s.stale,
        behind := if LaterHasRepointed(s, job) then s.behind + {job.slot} else s.behind - {job.slot})
    case RemoveOld(t) =>
      var job := s.jobs[t];
      var gone := if job.stage.prev.Some? then {(job.slot, job.stage.prev.value)} else {};
      Advance(s, t, Finished).(data := s.data - gone)
  }

  ghost predicate Step(s: State, e: Event, t: State) {
    Enabled(s, e) && t == Apply(s, e)
  }

  ghost predicate Next(s: State, t: State) {
    exists e: Event :: Step(s, e, t)
  }

  ghost predicate Run(run: seq<State>) {
    run != [] && run[0] == Init && forall i :: 0 < i < |run| ==> Next(run[i - 1], run[i])
  }

  predicate Active(s: State, t: Task) {
    t in s.jobs && !s.jobs[t].stage.Finished?
  }

  ghost predicate Busy(s: State, slot: Slot) {
    exists t :: Active(s, t) && s.jobs[t].slot == slot
  }

  // ---------- what holds of all updates, overlapping or not ----------

  /** Positions are handed out once. */
  ghost predicate CountsOk(s: State) {
    && (forall t :: t in s.jobs ==> s.jobs[t].count <= s.counter)
    && (forall t, u :: t in s.jobs && u in s.jobs && s.jobs[t].count == s.jobs[u].count ==> t == u)
    && (forall slot :: slot in s.index ==> s.index[slot] <= s.counter)
    && (forall k :: k in s.data ==> k.1 <= s.counter)
  }

  /** The position belongs to an update of the slot that has repointed the index. */
  ghost predicate Published(s: State, slot: Slot, c: nat) {
    exists t :: HasRepointed(s, t) && s.jobs[t].slot == slot && s.jobs[t].count == c
  }

  predicate HasPrev(stage: Stage) {
    stage.Looked? || stage.Repointed?
  }

  ghost predicate Holds(s: State, job: Job) {
    (job.slot, job.count) in s.data && s.data[(job.slot, job.count)] == job.value
  }

  /** Before it repoints, an update has its entry. */
  ghost predicate EntryOk(s: State, t: Task)
    requires t in s.jobs
  {
    s.jobs[t].stage.Written? || s.jobs[t].stage.Looked? ==> Holds(s, s.jobs[t])
  }

  /** What an update found is published; after it has repointed, that is not what the index names. */
  ghost predicate PrevOk(s: State, t: Task)
    requires t in s.jobs
  {
    var job := s.jobs[t];
    && (HasPrev(job.stage) && job.stage.prev.Some? ==> Published(s, job.slot, job.stage.prev.value))
    && (job.stage.Repointed? ==> job.stage.prev != Lookup(s.index, job.slot))
    && (HasRepointed(s, t) ==> job.slot in s.index)
  }

  /** The index names a published entry, which is there with the value that was written. */
  ghost predicate IndexOk(s: State, slot: Slot) {
    slot in s.index ==> Published(s, slot, s.index[slot]) && (slot, s.index[slot]) in s.data
  }

  ghost predicate RowOk(s: State, slot: Slot, c: nat) {
    (slot, c) in s.data ==>
      exists t :: t in s.jobs && s.jobs[t].slot == slot && s.jobs[t].count == c && !s.jobs[t].stage.Counted?
                  && s.data[(slot, c)] == s.jobs[t].value
  }

  ghost predicate Inv(s: State) {
    && CountsOk(s)
    && (forall t :: t in s.jobs ==> EntryOk(s, t) && PrevOk(s, t))
    && (forall slot :: IndexOk(s, slot))
    && (forall slot, c: nat :: RowOk(s, slot, c))
  }

  lemma CountsKeep(s: State, e: Event, t: State)
    requires CountsOk(s) && Step(s, e, t)
    ensures CountsOk(t)
  {
  }

  lemma PublishedStays(s: State, e: Event, t: State, slot: Slot, c: nat)
    requires Step(s, e, t) && Published(s, slot, c)
    ensures Published(t, slot, c)
  {
    var u :| HasRepointed(s, u) && s.jobs[u].slot == slot && s.jobs[u].count == c;
    assert HasRepointed(t, u) && t.jobs[u].count == c && t.jobs[u].slot == slot;
  }

  /** Whoever has not repointed is unknown to everybody else. */
  lemma UnpublishedUnknown(s: State, u: Task, c: nat)
    requires CountsOk(s) && u in s.jobs && !HasRepointed(s, u) && Published(s, s.jobs[u].slot, c)
    ensures c != s.jobs[u].count
  {
  }

  lemma EntriesKeep(s: State, e: Event, t: State, u: Task)
    requires Inv(s) && Step(s, e, t) && u in t.jobs
    ensures EntryOk(t, u)
  {
    if u in s.jobs { assert EntryOk(s, u); }
    if e.RemoveOld? && s.jobs[e.t].stage.prev.Some? && u in s.jobs && !HasRepointed(s, u)
       && s.jobs[u].slot == s.jobs[e.t].slot {
      assert PrevOk(s, e.t);
      UnpublishedUnknown(s, u, s.jobs[e.t].stage.prev.value);
    }
  }

  lemma PrevsKeep(s: State, e: Event, t: State, u: Task)
    requires Inv(s) && Step(s, e, t) && u in t.jobs
    ensures PrevOk(t, u)
  {
    var job := t.jobs[u];
    if u in s.jobs {
      assert PrevOk(s, u);
      if HasPrev(s.jobs[u].stage) && s.jobs[u].stage.prev.Some? {
        var p := s.jobs[u].stage.prev.value;
        PublishedStays(s, e, t, job.slot, p);
        if e.Repoint? && job.slot == s.jobs[e.t].slot { UnpublishedUnknown(s, e.t, p); }
      }
    }
    if e.LookUp? && s.jobs[e.t].slot in s.index {
      assert IndexOk(s, s.jobs[e.t].slot);
      PublishedStays(s, e, t, s.jobs[e.t].slot, s.index[s.jobs[e.t].slot]);
    }
  }

  lemma IndexKeeps(s: State, e: Event, t: State, slot: Slot)
    requires Inv(s) && Step(s, e, t)
    ensures IndexOk(t, slot)
  {
    assert IndexOk(s, slot);
    if slot in s.index { PublishedStays(s, e, t, slot, s.index[slot]); }
    if !e.Tick? && !e.Begin? { assert EntryOk(s, e.t) && PrevOk(s, e.t); }
    if e.Repoint? { assert HasRepointed(t, e.t); }
  }

  lemma RowsKeep(s: State, e: Event, t: State, slot: Slot, c: nat)
    requires Inv(s) && Step(s, e, t)
    ensures RowOk(t, slot, c)
  {
    assert RowOk(s, slot, c);
    if (slot, c) in t.data {
      if e.WriteEntry? && s.jobs[e.t].slot == slot && s.jobs[e.t].count == c {
        assert t.jobs[e.t].count == c && !t.jobs[e.t].stage.Counted?;
      } else {
        var u :| u in s.jobs && s.jobs[u].slot == slot && s.jobs[u].count == c && !s.jobs[u].stage.Counted?
                 && s.data[(slot, c)] == s.jobs[u].value;
        assert u in t.jobs && t.jobs[u].count == c && !t.jobs[u].stage.Counted?;
      }
    }
  }

  lemma StepKeeps(s: State, e: Event, t: State)
    requires Inv(s) && Step(s, e, t)
    ensures Inv(t)
  {
    CountsKeep(s, e, t);
    forall u | u in t.jobs ensures EntryOk(t, u) && PrevOk(t, u) {
      EntriesKeep(s, e, t, u);
      PrevsKeep(s, e, t, u);
    }
    forall slot ensures IndexOk(t, slot) { IndexKeeps(s, e, t, slot); }
    forall slot, c: nat ensures RowOk(t, slot, c) { RowsKeep(s, e, t, slot, c); }
  }

  lemma {:induction false} RunInv(run: seq<State>, k: nat)
    requires Run(run) && k < |run|
    ensures Inv(run[k])
  {
    if k > 0 {
      RunInv(run, k - 1);
      assert Next(run[k - 1], run[k]);
      var e: Event :| Step(run[k - 1], e, run[k]);
      StepKeeps(run[k - 1], e, run[k]);
    }
  }

  /** In every run, after every single tree operation, the entry that the index names is there. */
  lemma NeverDangling(run: seq<State>, k: nat, slot: Slot)
    requires Run(run) && k < |run| && slot in run[k].index
    ensures (slot, run[k].index[slot]) in run[k].data
  {
    RunInv(run, k);
    assert IndexOk(run[k], slot);
  }

  /** The index names the entry of the update that repointed last, with the value of that update. */
  lemma {:induction false} CurrentIsLastRepointed(run: seq<State>, k: nat, slot: Slot) returns (j: nat, t: Task)
    requires Run(run) && k < |run| && slot in run[k].index
    ensures j < k && Step(run[j], Repoint(t), run[j + 1]) && run[j].jobs[t].slot == slot
    ensures forall i :: j < i <= k ==> Lookup(run[i].index, slot) == Some(run[j].jobs[t].count)
    ensures (slot, run[k].index[slot]) in run[k].data && run[k].data[(slot, run[k].index[slot])] == run[j].jobs[t].value
    decreases k
  {
    hide Inv, Apply;
    var s, u := run[k - 1], run[k];
    assert Next(s, u);
    var e: Event :| Step(s, e, u);
    RunInv(run, k - 1);
    CurrentStep(s, e, u, slot);
    if e.Repoint? && s.jobs[e.t].slot == slot {
      j, t := k - 1, e.t;
    } else {
      j, t := CurrentIsLastRepointed(run, k - 1, slot);
    }
  }

  lemma CurrentStep(s: State, e: Event, t: State, slot: Slot)
    requires Inv(s) && Step(s, e, t) && slot in t.index
    ensures (slot, t.index[slot]) in t.data
    ensures if e.Repoint? && s.jobs[e.t].slot == slot
            then t.index[slot] == s.jobs[e.t].count && t.data[(slot, t.index[slot])] == s.jobs[e.t].value
            else slot in s.index && t.index[slot] == s.index[slot] && (slot, s.index[slot]) in s.data
                 && t.data[(slot, t.index[slot])] == s.data[(slot, s.index[slot])]
  {
    if e.Repoint? && s.jobs[e.t].slot == slot {
      assert EntryOk(s, e.t);
    } else {
      assert IndexOk(s, slot) && slot in s.index;
      if e.RemoveOld? { assert PrevOk(s, e.t); }
      EntryStep(s, e, t, slot, s.index[slot]);
    }
  }

  // ---------- one entry per slot ----------

  /** A published entry that the index does not name and nobody is about to remove. */
  ghost predicate Unclaimed(s: State, slot: Slot, c: nat) {
    && (slot, c) in s.data && Published(s, slot, c) && Lookup(s.index, slot) != Some(c)
    && forall t :: t in s.jobs && s.jobs[t].slot == slot && s.jobs[t].stage.Repointed? ==>
         s.jobs[t].stage.prev != Some(c)
  }

  ghost predicate StaleOk(s: State, slot: Slot) {
    slot in s.stale <==> exists c :: Unclaimed(s, slot, c)
  }

  lemma PublishedBefore(s: State, e: Event, t: State, slot: Slot, c: nat)
    requires Step(s, e, t) && Published(t, slot, c)
    ensures Published(s, slot, c) || (e.Repoint? && s.jobs[e.t].slot == slot && s.jobs[e.t].count == c)
  {
    var u :| HasRepointed(t, u) && t.jobs[u].slot == slot && t.jobs[u].count == c;
    if HasRepointed(s, u) { assert s.jobs[u].count == c && s.jobs[u].slot == slot; }
  }

  lemma PublishedIndexed(s: State, slot: Slot, c: nat)
    requires Inv(s) && Published(s, slot, c)
    ensures slot in s.index
  {
    var t :| HasRepointed(s, t) && s.jobs[t].slot == slot && s.jobs[t].count == c;
    assert PrevOk(s, t);
  }

  /** What an update takes the index away from, without having found it, nobody claims any more. */
  lemma StaleRepoint(s: State, u: Task, t: State)
    requires Inv(s) && Step(s, Repoint(u), t) && s.jobs[u].stage.prev != Lookup(s.index, s.jobs[u].slot)
    ensures s.jobs[u].slot in s.index && Unclaimed(t, s.jobs[u].slot, s.index[s.jobs[u].slot])
  {
    var slot := s.jobs[u].slot;
    assert PrevOk(s, u) && IndexOk(s, slot);
    if s.jobs[u].stage.prev.Some? { PublishedIndexed(s, slot, s.jobs[u].stage.prev.value); }
    var q := s.index[slot];
    PublishedStays(s, Repoint(u), t, slot, q);
    UnpublishedUnknown(s, u, q);
    forall v | v in t.jobs && t.jobs[v].slot == slot && t.jobs[v].stage.Repointed?
      ensures t.jobs[v].stage.prev != Some(q)
    {
      assert PrevOk(s, v);
    }
  }

  predicate Blind(s: State, e: Event, slot: Slot) {
    && e.Repoint? && e.t in s.jobs && s.jobs[e.t].slot == slot && s.jobs[e.t].stage.Looked?
    && s.jobs[e.t].stage.prev != Lookup(s.index, slot)
  }

  lemma UnclaimedBefore(s: State, e: Event, t: State, slot: Slot, c: nat)
    requires Inv(s) && Step(s, e, t) && Unclaimed(t, slot, c) && !Blind(s, e, slot)
    ensures Unclaimed(s, slot, c)
  {
    PublishedBefore(s, e, t, slot, c);
    assert Published(s, slot, c);
    if e.WriteEntry? && s.jobs[e.t].slot == slot { UnpublishedUnknown(s, e.t, c); }
    if e.Repoint? { assert e.t in t.jobs && t.jobs[e.t].stage == Repointed(s.jobs[e.t].stage.prev); }
    forall v | v in s.jobs && s.jobs[v].slot == slot && s.jobs[v].stage.Repointed?
      ensures s.jobs[v].stage.prev != Some(c)
    {
      if e != RemoveOld(v) { assert v in t.jobs && t.jobs[v] == s.jobs[v]; }
    }
  }

  lemma UnclaimedStays(s: State, e: Event, t: State, slot: Slot, c: nat) returns (d: nat)
    requires Inv(s) && Step(s, e, t) && Unclaimed(s, slot, c)
    ensures Unclaimed(t, slot, d)
  {
    d := c;
    PublishedStays(s, e, t, slot, c);
    if e.Repoint? && s.jobs[e.t].slot == slot {
      UnpublishedUnknown(s, e.t, c);
      if s.jobs[e.t].stage.prev == Some(c) {
        StaleRepoint(s, e.t, t);
        d := s.index[slot];
      }
    }
  }

  lemma StaleKeeps(s: State, e: Event, t: State, slot: Slot)
    requires Inv(s) && StaleOk(s, slot) && Step(s, e, t)
    ensures StaleOk(t, slot)
  {
    if c :| Unclaimed(t, slot, c) {
      if !Blind(s, e, slot) { UnclaimedBefore(s, e, t, slot, c); }
    }
    if slot in t.stale {
      if slot in s.stale {
        var c :| Unclaimed(s, slot, c);
        var d := UnclaimedStays(s, e, t, slot, c);
      } else {
        StaleRepoint(s, e.t, t);
      }
    }
  }

  lemma {:induction false} RunStale(run: seq<State>, k: nat, slot: Slot)
    requires Run(run) && k < |run|
    ensures StaleOk(run[k], slot)
  {
    if k > 0 {
      RunStale(run, k - 1, slot);
      RunInv(run, k - 1);
      assert Next(run[k - 1], run[k]);
      var e: Event :| Step(run[k - 1], e, run[k]);
      StaleKeeps(run[k - 1], e, run[k], slot);
    }
  }

  /** In every run, a slot at rest has exactly the entry that the index names if and only if no update
      has repointed it that had found another entry than the one it took the index away from. */
  lemma OneEntryIff(run: seq<State>, k: nat, slot: Slot)
    requires Run(run) && k < |run| && !Busy(run[k], slot)
    ensures (forall c: nat :: (slot, c) in run[k].data <==> Lookup(run[k].index, slot) == Some(c))
            <==> slot !in run[k].stale
  {
    var s := run[k];
    RunInv(run, k);
    RunStale(run, k, slot);
    assert IndexOk(s, slot);
    forall c: nat ensures Unclaimed(s, slot, c) <==> (slot, c) in s.data && Lookup(s.index, slot) != Some(c) {
      AtRestUnclaimed(s, slot, c);
    }
  }

  lemma AtRestUnclaimed(s: State, slot: Slot, c: nat)
    requires Inv(s) && !Busy(s, slot)
    ensures Unclaimed(s, slot, c) <==> (slot, c) in s.data && Lookup(s.index, slot) != Some(c)
  {
    assert forall t :: t in s.jobs && s.jobs[t].slot == slot ==> !Active(s, t);
    if (slot, c) in s.data {
      assert RowOk(s, slot, c);
      var t :| t in s.jobs && s.jobs[t].slot == slot && s.jobs[t].count == c;
      assert HasRepointed(s, t);
    }
  }

  /** In step `j` an update repoints the slot that had found another entry. */
  ghost predicate BlindRepoint(run: seq<State>, j: nat, t: Task, slot: Slot)
    requires j + 1 < |run|
  {
    && Step(run[j], Repoint(t), run[j + 1]) && run[j].jobs[t].slot == slot
    && run[j].jobs[t].stage.prev != Lookup(run[j].index, slot)
  }

  /** The stale slots are those that were repointed like that. */
  lemma {:induction false} StaleIff(run: seq<State>, k: nat, slot: Slot)
    requires Run(run) && k < |run|
    ensures slot in run[k].stale <==> exists j: nat, t: Task :: j < k && BlindRepoint(run, j, t, slot)
    decreases k
  {
    if k > 0 {
      var n := k - 1;
      StaleIff(run, n, slot);
      assert Next(run[n], run[k]);
      var e: Event :| Step(run[n], e, run[k]);
      if slot in run[k].stale && slot !in run[n].stale { assert BlindRepoint(run, n, e.t, slot); }
      forall t: Task | BlindRepoint(run, n, t, slot) ensures slot in run[k].stale {
        assert run[k] == Apply(run[n], Repoint(t));
      }
      assert run[n].stale <= run[k].stale;
    }
  }

  // ---------- the latest value ----------

  ghost predicate BehindOk(s: State, slot: Slot) {
    slot in s.behind <==>
    slot in s.index && exists t :: HasRepointed(s, t) && s.jobs[t].slot == slot && s.jobs[t].count > s.index[slot]
  }

  lemma BehindKeeps(s: State, e: Event, t: State, slot: Slot)
    requires BehindOk(s, slot) && Step(s, e, t)
    ensures BehindOk(t, slot)
  {
    if slot in t.index && slot in s.index && !(e.Repoint? && s.jobs[e.t].slot == slot) {
      assert forall u :: HasRepointed(t, u) && t.jobs[u].slot == slot ==> HasRepointed(s, u);
      assert forall u :: HasRepointed(s, u) && s.jobs[u].slot == slot ==> HasRepointed(t, u);
    }
    if e.Repoint? && s.jobs[e.t].slot == slot {
      assert forall u :: HasRepointed(t, u) && u != e.t ==> HasRepointed(s, u);
      assert forall u :: HasRepointed(s, u) ==> HasRepointed(t, u) && u != e.t;
    }
  }

  lemma {:induction false} RunBehind(run: seq<State>, k: nat, slot: Slot)
    requires Run(run) && k < |run|
    ensures BehindOk(run[k], slot)
  {
    if k > 0 {
      RunBehind(run, k - 1, slot);
      assert Next(run[k - 1], run[k]);
      var e: Event :| Step(run[k - 1], e, run[k]);
      BehindKeeps(run[k - 1], e, run[k], slot);
    }
  }

  /** In every run, a slot at rest reads back the value of the update with the latest position if and only
      if the last update to repoint it was that one. */
  lemma LatestIff(run: seq<State>, k: nat, slot: Slot)
    requires Run(run) && k < |run| && !Busy(run[k], slot) && slot in run[k].index
    ensures (forall t :: t in run[k].jobs && run[k].jobs[t].slot == slot ==> run[k].jobs[t].count <= run[k].index[slot])
            <==> slot !in run[k].behind
  {
    RunBehind(run, k, slot);
    assert forall t :: t in run[k].jobs && run[k].jobs[t].slot == slot ==>
      !Active(run[k], t) && HasRepointed(run[k], t);
  }

  /** In step `j` an update repoints the slot. */
  ghost predicate RepointAt(run: seq<State>, j: nat, t: Task, slot: Slot)
    requires j + 1 < |run|
  {
    Step(run[j], Repoint(t), run[j + 1]) && run[j].jobs[t].slot == slot
  }

  /** The last step before `k` that repoints the slot, by an update that comes after a later one. */
  ghost predicate LastRepointLate(run: seq<State>, j: nat, k: nat, t: Task, slot: Slot)
    requires j < k < |run|
  {
    && RepointAt(run, j, t, slot) && LaterHasRepointed(run[j], run[j].jobs[t])
    && forall i: nat, u: Task :: j < i < k ==> !RepointAt(run, i, u, slot)
  }

  /** The slots that are behind are those whose last repoint came when an update with a later position had
      already repointed. */
  lemma {:induction false} BehindIff(run: seq<State>, k: nat, slot: Slot)
    requires Run(run) && k < |run|
    ensures slot in run[k].behind <==> exists j: nat, t: Task :: j < k && LastRepointLate(run, j, k, t, slot)
    decreases k
  {
    if k > 0 {
      var n := k - 1;
      BehindIff(run, n, slot);
      assert Next(run[n], run[k]);
      var e: Event :| Step(run[n], e, run[k]);
      if u: Task :| RepointAt(run, n, u, slot) {
        BehindAtRepoint(run, n, u, slot);
        if slot in run[k].behind { assert LastRepointLate(run, n, k, u, slot); }
        forall j: nat, t: Task | j < k && LastRepointLate(run, j, k, t, slot) ensures slot in run[k].behind {
          assert j == n;
          BehindAtRepoint(run, n, t, slot);
        }
      } else {
        assert e.Repoint? ==> !RepointAt(run, n, e.t, slot);
        assert slot in run[k].behind <==> slot in run[n].behind;
        forall j: nat, t: Task | j < n
          ensures LastRepointLate(run, j, n, t, slot) <==> LastRepointLate(run, j, k, t, slot)
        {
        }
        forall t: Task ensures !LastRepointLate(run, n, k, t, slot) { assert !RepointAt(run, n, t, slot); }
      }
    }
  }

  lemma BehindAtRepoint(run: seq<State>, n: nat, t: Task, slot: Slot)
    requires n + 1 < |run| && RepointAt(run, n, t, slot)
    ensures slot in run[n + 1].behind <==> LaterHasRepointed(run[n], run[n].jobs[t])
  {
  }

  // ---------- updates that do not overlap ----------

  /** No update of the slot begins while another one of it is under way. */
  ghost predicate SeparateNext(s: State, t: State, slot: Slot) {
    exists e: Event :: Step(s, e, t) && (e.Begin? && e.slot == slot ==> !Busy(s, slot))
  }

  ghost predicate SeparateRun(run: seq<State>, slot: Slot) {
    run != [] && run[0] == Init && forall i :: 0 < i < |run| ==> SeparateNext(run[i - 1], run[i], slot)
  }

  ghost predicate SeparateOk(s: State, slot: Slot) {
    && (forall t, u :: Active(s, t) && Active(s, u) && s.jobs[t].slot == slot && s.jobs[u].slot == slot ==> t == u)
    && (forall t :: Active(s, t) && s.jobs[t].slot == slot && !HasRepointed(s, t) ==>
          && (s.jobs[t].stage.Looked? ==> s.jobs[t].stage.prev == Lookup(s.index, slot))
          && !LaterHasRepointed(s, s.jobs[t]))
    && slot !in s.stale && slot !in s.behind
  }

  lemma SeparateKeeps(s: State, e: Event, t: State, slot: Slot)
    requires CountsOk(s) && SeparateOk(s, slot) && Step(s, e, t) && (e.Begin? && e.slot == slot ==> !Busy(s, slot))
    ensures SeparateOk(t, slot)
  {
    if !e.Tick? && !e.Begin? { assert Active(s, e.t); }
    forall u, v | Active(t, u) && Active(t, v) && t.jobs[u].slot == slot && t.jobs[v].slot == slot ensures u == v {
      if !(e.Begin? && e.slot == slot) { assert Active(s, u) && Active(s, v); }
      assert e.Begin? ==> (u != e.t ==> Active(s, u)) && (v != e.t ==> Active(s, v));
    }
    forall u | Active(t, u) && t.jobs[u].slot == slot && !HasRepointed(t, u)
      ensures t.jobs[u].stage.Looked? ==> t.jobs[u].stage.prev == Lookup(t.index, slot)
      ensures !LaterHasRepointed(t, t.jobs[u])
    {
      if u in s.jobs { assert Active(s, u) && !HasRepointed(s, u); }
      forall v | HasRepointed(t, v) && t.jobs[v].slot == slot ensures t.jobs[v].count <= t.jobs[u].count {
        assert HasRepointed(s, v) || e == Repoint(v);
      }
    }
  }

  /** If the updates of a slot do not overlap, whatever those of other slots do, it is neither stale nor
      behind: it has one entry, and that is the latest. */
  lemma {:induction false} SeparateIsSafe(run: seq<State>, k: nat, slot: Slot)
    requires SeparateRun(run, slot) && k < |run|
    ensures CountsOk(run[k]) && SeparateOk(run[k], slot)
  {
    if k > 0 {
      SeparateIsSafe(run, k - 1, slot);
      assert SeparateNext(run[k - 1], run[k], slot);
      var e: Event :| Step(run[k - 1], e, run[k]) && (e.Begin? && e.slot == slot ==> !Busy(run[k - 1], slot));
      CountsKeep(run[k - 1], e, run[k]);
      SeparateKeeps(run[k - 1], e, run[k], slot);
    }
  }

  // ---------- a reader between the steps ----------

  /** In step `m` an update removes the entry. */
  ghost predicate Removal(run: seq<State>, m: nat, t: Task, slot: Slot, c: nat)
    requires m + 1 < |run|
  {
    Step(run[m], RemoveOld(t), run[m + 1]) && run[m].jobs[t].slot == slot && run[m].jobs[t].stage.prev == Some(c)
  }

  lemma EntryStep(s: State, e: Event, t: State, slot: Slot, c: nat)
    requires Inv(s) && Published(s, slot, c) && Step(s, e, t)
    ensures (slot, c) in t.data <==>
            (slot, c) in s.data && !(e.RemoveOld? && s.jobs[e.t].slot == slot && s.jobs[e.t].stage.prev == Some(c))
    ensures (slot, c) in t.data ==> t.data[(slot, c)] == s.data[(slot, c)]
  {
    if e.WriteEntry? && s.jobs[e.t].slot == slot { UnpublishedUnknown(s, e.t, c); }
  }

  lemma {:induction false} EntryGone(run: seq<State>, i: nat, j: nat, slot: Slot, c: nat)
    requires Run(run) && i <= j < |run| && Published(run[i], slot, c) && (slot, c) in run[i].data
    ensures Published(run[j], slot, c)
    ensures (slot, c) !in run[j].data <==> exists m: nat, t: Task :: i <= m < j && Removal(run, m, t, slot, c)
    ensures (slot, c) in run[j].data ==> run[j].data[(slot, c)] == run[i].data[(slot, c)]
    decreases j
  {
    hide Inv, Published, Apply;
    if i < j {
      var n := j - 1;
      EntryGone(run, i, n, slot, c);
      RunInv(run, n);
      assert Next(run[n], run[j]);
      var e: Event :| Step(run[n], e, run[j]);
      PublishedStays(run[n], e, run[j], slot, c);
      EntryStep(run[n], e, run[j], slot, c);
      if e.RemoveOld? && run[n].jobs[e.t].slot == slot && run[n].jobs[e.t].stage.prev == Some(c) {
        assert Removal(run, n, e.t, slot, c);
      }
      forall t: Task | Removal(run, n, t, slot, c) ensures (slot, c) !in run[j].data {
        EntryStep(run[n], RemoveOld(t), run[j], slot, c);
      }
    }
  }

  /** A reader follows the index at one time and reads the entry at a later one. It comes away empty if
      and only if an update removed that entry in between; otherwise it has the value that was current
      when it followed the index. */
  lemma ReaderMissesIff(run: seq<State>, i: nat, j: nat, slot: Slot)
    requires Run(run) && i <= j < |run| && slot in run[i].index
    ensures var c := run[i].index[slot];
      && (slot, c) in run[i].data
      && ((slot, c) !in run[j].data <==> exists m: nat, t: Task :: i <= m < j && Removal(run, m, t, slot, c))
      && ((slot, c) in run[j].data ==> run[j].data[(slot, c)] == run[i].data[(slot, c)])
  {
    RunInv(run, i);
    assert IndexOk(run[i], slot);
    EntryGone(run, i, j, slot, run[i].index[slot]);
  }

  // ---------- updates that overlap ----------

  /** An entry that neither the index nor any unfinished update knows. */
  ghost predicate Orphan(s: State, slot: Slot, c: nat) {
    && (slot, c) in s.data && Lookup(s.index, slot) != Some(c) && c <= s.counter
    && forall t :: Active(s, t) && s.jobs[t].slot == slot ==>
         && s.jobs[t].count != c
         && (s.jobs[t].stage.Looked? || s.jobs[t].stage.Repointed? ==> s.jobs[t].stage.prev != Some(c))
  }

  lemma OrphanKeeps(s: State, e: Event, t: State, slot: Slot, c: nat)
    requires Step(s, e, t) && Orphan(s, slot, c)
    ensures Orphan(t, slot, c) && t.data[(slot, c)] == s.data[(slot, c)]
  {
    if !e.Tick? && e.t in s.jobs { assert Active(s, e.t); }
    forall u | Active(t, u) && t.jobs[u].slot == slot
      ensures t.jobs[u].count != c
      ensures t.jobs[u].stage.Looked? || t.jobs[u].stage.Repointed? ==> t.jobs[u].stage.prev != Some(c)
    {
      if u in s.jobs { assert Active(s, u); }
    }
  }

  /** Nothing ever removes such an entry. */
  lemma {:induction false} OrphanStays(run: seq<State>, a: nat, b: nat, slot: Slot, c: nat)
    requires Run(run) && a <= b < |run| && Orphan(run[a], slot, c)
    ensures Orphan(run[b], slot, c) && run[b].data[(slot, c)] == run[a].data[(slot, c)]
    decreases b
  {
    hide Orphan;
    if a < b {
      OrphanStays(run, a, b - 1, slot, c);
      assert Next(run[b - 1], run[b]);
      var e: Event :| Step(run[b - 1], e, run[b]);
      OrphanKeeps(run[b - 1], e, run[b], slot, c);
    }
  }

  ghost predicate Steps(s: State, ts: seq<State>) {
    ts != [] && Next(s, ts[0]) && forall i :: 0 < i < |ts| ==> Next(ts[i - 1], ts[i])
  }

  lemma StepsJoin(s: State, ts: seq<State>, us: seq<State>)
    requires Steps(s, ts) && Steps(ts[|ts| - 1], us)
    ensures Steps(s, ts + us)
  {
    var all := ts + us;
    forall i | 0 < i < |all| ensures Next(all[i - 1], all[i]) {
      if i > |ts| { assert Next(us[i - |ts| - 1], us[i - |ts|]); }
    }
  }

  /** Two updates under way together, both at one stage. */
  ghost predicate Pair(s: State, a: Task, b: Task, slot: Slot, c: nat, stage: Stage) {
    && a in s.jobs && b in s.jobs && a != b
    && s.jobs[a].slot == slot && s.jobs[b].slot == slot && s.jobs[a].count == c && s.jobs[b].count == c + 1
    && s.jobs[a].stage == stage && s.jobs[b].stage == stage && c + 1 <= s.counter
    && forall t :: Active(s, t) && s.jobs[t].slot == slot ==> t == a || t == b
  }

  lemma BothWrite(s: State, a: Task, b: Task, slot: Slot, v: Value, w: Value) returns (ts: seq<State>)
    requires !Busy(s, slot) && a !in s.jobs && b !in s.jobs && a != b
    ensures Steps(s, ts)
    ensures var t := ts[|ts| - 1];
      && Pair(t, a, b, slot, s.counter + 1, Written) && t.index == s.index
      && t.jobs[a].value == v && t.jobs[b].value == w && Holds(t, t.jobs[a]) && Holds(t, t.jobs[b])
  {
    var s1 := Apply(s, Begin(a, slot, v));
    var s2 := Apply(s1, Begin(b, slot, w));
    var s3 := Apply(s2, WriteEntry(a));
    var s4 := Apply(s3, WriteEntry(b));
    assert Step(s, Begin(a, slot, v), s1) && Step(s1, Begin(b, slot, w), s2);
    assert Step(s2, WriteEntry(a), s3) && Step(s3, WriteEntry(b), s4);
    ts := [s1, s2, s3, s4];
    forall t | Active(s4, t) && s4.jobs[t].slot == slot ensures t == a || t == b {
      if t != a && t != b { assert Active(s, t); }
    }
  }

  lemma BothLook(s: State, a: Task, b: Task, slot: Slot, c: nat) returns (ts: seq<State>)
    requires Pair(s, a, b, slot, c, Written)
    ensures Steps(s, ts)
    ensures var t := ts[|ts| - 1];
      && Pair(t, a, b, slot, c, Looked(Lookup(s.index, slot))) && t.index == s.index && t.data == s.data
      && t.jobs[a].value == s.jobs[a].value && t.jobs[b].value == s.jobs[b].value
  {
    var s1 := Apply(s, LookUp(a));
    var s2 := Apply(s1, LookUp(b));
    assert Step(s, LookUp(a), s1) && Step(s1, LookUp(b), s2);
    ts := [s1, s2];
    assert forall t :: Active(s2, t) ==> Active(s, t);
  }

  /** The later update repoints first. */
  lemma BothRepoint(s: State, a: Task, b: Task, slot: Slot, c: nat, prev: Option<nat>) returns (ts: seq<State>)
    requires Pair(s, a, b, slot, c, Looked(prev)) && prev != Some(c) && prev != Some(c + 1)
    ensures Steps(s, ts)
    ensures var t := ts[|ts| - 1];
      && Pair(t, a, b, slot, c, Repointed(prev)) && t.data == s.data && Lookup(t.index, slot) == Some(c)
      && t.jobs[a].value == s.jobs[a].value && t.jobs[b].value == s.jobs[b].value
      && slot in t.stale && slot in t.behind
  {
    var s1 := Apply(s, Repoint(b));
    var s2 := Apply(s1, Repoint(a));
    assert Step(s, Repoint(b), s1) && Step(s1, Repoint(a), s2);
    assert HasRepointed(s1, b) && LaterHasRepointed(s1, s1.jobs[a]);
    ts := [s1, s2];
    assert forall t :: Active(s2, t) ==> Active(s, t);
  }

  lemma BothRemove(s: State, a: Task, b: Task, slot: Slot, c: nat, prev: Option<nat>) returns (ts: seq<State>)
    requires Pair(s, a, b, slot, c, Repointed(prev)) && prev != Some(c) && prev != Some(c + 1)
    requires (slot, c) in s.data && (slot, c + 1) in s.data && Lookup(s.index, slot) == Some(c)
    ensures Steps(s, ts)
    ensures var t := ts[|ts| - 1];
      && !Busy(t, slot) && t.index == s.index && t.stale == s.stale && t.behind == s.behind
      && Orphan(t, slot, c + 1) && t.data[(slot, c + 1)] == s.data[(slot, c + 1)]
      && (slot, c) in t.data && t.data[(slot, c)] == s.data[(slot, c)]
      && a in t.jobs && t.jobs[a] == Job(slot, c, s.jobs[a].value, Finished)
      && b in t.jobs && t.jobs[b] == Job(slot, c + 1, s.jobs[b].value, Finished)
  {
    var s1 := Apply(s, RemoveOld(a));
    var s2 := Apply(s1, RemoveOld(b));
    assert Step(s, RemoveOld(a), s1) && Step(s1, RemoveOld(b), s2);
    ts := [s1, s2];
    assert forall t :: Active(s2, t) ==> Active(s, t) && t != a && t != b;
  }

  /** From every reachable state in which a slot is at rest, two updates of it that overlap can leave
      the index with the earlier value, and the later one in the tree where nothing ever removes it. */
  lemma OverlapLosesUpdate(run: seq<State>, a: Task, b: Task, slot: Slot, v: Value, w: Value) returns (ts: seq<State>)
    requires Run(run) && !Busy(run[|run| - 1], slot) && a !in run[|run| - 1].jobs && b !in run[|run| - 1].jobs && a != b
    ensures Run(run + ts) && ts != []
    ensures var s, t := run[|run| - 1], ts[|ts| - 1]; var c := s.counter + 1;
      && !Busy(t, slot) && Lookup(t.index, slot) == Some(c) && (slot, c) in t.data && t.data[(slot, c)] == v
      && Orphan(t, slot, c + 1) && t.data[(slot, c + 1)] == w && slot in t.stale && slot in t.behind
      && a in t.jobs && t.jobs[a] == Job(slot, c, v, Finished)
      && b in t.jobs && t.jobs[b] == Job(slot, c + 1, w, Finished)
  {
    var s := run[|run| - 1];
    RunCounts(run, |run| - 1);
    var ts1 := BothWrite(s, a, b, slot, v, w);
    var t1 := ts1[|ts1| - 1];
    var ts2 := BothLook(t1, a, b, slot, s.counter + 1);
    var t2 := ts2[|ts2| - 1];
    var ts3 := BothRepoint(t2, a, b, slot, s.counter + 1, Lookup(s.index, slot));
    var t3 := ts3[|ts3| - 1];
    var ts4 := BothRemove(t3, a, b, slot, s.counter + 1, Lookup(s.index, slot));
    StepsJoin(s, ts1, ts2);
    StepsJoin(s, ts1 + ts2, ts3);
    StepsJoin(s, ts1 + ts2 + ts3, ts4);
    ts := ts1 + ts2 + ts3 + ts4;
    assert ts[|ts| - 1] == ts4[|ts4| - 1];
    RunSteps(run, ts);
  }

  lemma RunSteps(run: seq<State>, ts: seq<State>)
    requires Run(run) && Steps(run[|run| - 1], ts)
    ensures Run(run + ts)
  {
    var all := run + ts;
    forall i | 0 < i < |all| ensures Next(all[i - 1], all[i]) {
      if i < |run| {
        assert Next(run[i - 1], run[i]);
      } else if i > |run| {
        assert Next(ts[i - |run| - 1], ts[i - |run|]);
      }
    }
  }

  lemma {:induction false} RunCounts(run: seq<State>, k: nat)
    requires Run(run) && k < |run|
    ensures CountsOk(run[k])
  {
    if k > 0 {
      RunCounts(run, k - 1);
      assert Next(run[k - 1], run[k]);
      var e: Event :| Step(run[k - 1], e, run[k]);
      CountsKeep(run[k - 1], e, run[k]);
    }
  }

  /** From every reachable state in which a slot has a value and is at rest, one update is enough to make a
      reader that has just followed the index come away empty. */
  lemma ReaderCanMiss(run: seq<State>, a: Task, slot: Slot, v: Value) returns (ts: seq<State>)
    requires Run(run) && !Busy(run[|run| - 1], slot) && a !in run[|run| - 1].jobs && slot in run[|run| - 1].index
    ensures Run(run + ts) && ts != []
    ensures (slot, run[|run| - 1].index[slot]) !in ts[|ts| - 1].data && slot in ts[|ts| - 1].index
  {
    var s := run[|run| - 1];
    RunCounts(run, |run| - 1);
    var s1 := Apply(s, Begin(a, slot, v));
    var s2 := Apply(s1, WriteEntry(a));
    var s3 := Apply(s2, LookUp(a));
    var s4 := Apply(s3, Repoint(a));
    var s5 := Apply(s4, RemoveOld(a));
    assert Step(s, Begin(a, slot, v), s1) && Step(s1, WriteEntry(a), s2) && Step(s2, LookUp(a), s3);
    assert Step(s3, Repoint(a), s4) && Step(s4, RemoveOld(a), s5);
    ts := [s1, s2, s3, s4, s5];
    RunSteps(run, ts);
  }
}
