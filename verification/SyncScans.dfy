/** Entries that take their position before they are written, and syncs that scan them. This is how the
    account data of a user in one room, or globally, and the key changes under one id reach a client: a
    sync notes the current position as its next token and later shows what it finds above its old one. */
module SyncScans {
  type ScanId = nat

  /** `missed` are the positions up to the token that were taken but not yet written when the sync looked,
      and `at` is the rank of the answer in time. */
  datatype Scan =
    | Begun(since: nat, next: nat)
    | Answered(since: nat, next: nat, shown: set<nat>, missed: set<nat>, at: nat)

  datatype State = State(counter: nat, inFlight: set<nat>, rows: set<nat>, scans: map<ScanId, Scan>, answers: nat)

  datatype Event =
    | Tick
    | Allocate
    | Insert(c: nat)
    | Remove(c: nat)
    | Begin(id: ScanId, since: nat)
    | Answer(id: ScanId)

  const Init := State(0, {}, {}, map[], 0)

  predicate Enabled(s: State, e: Event) {
    match e
    case Tick => true
    case Allocate => true
    case Insert(c) => c in s.inFlight
    case Remove(_) => true
    case Begin(id, since) => id !in s.scans && since <= s.counter
    case Answer(id) => id in s.scans && s.scans[id].Begun?
  }

  function Apply(s: State, e: Event): State
    requires Enabled(s, e)
  {
    match e
    case Tick => s.(counter := s.counter + 1)
    case Allocate => s.(counter := s.counter + 1, inFlight := s.inFlight + {s.counter + 1})
    case Insert(c) => s.(inFlight := s.inFlight - {c}, rows := s.rows + {c})
    case Remove(c) => s.(rows := s.rows - {c})
    case Begin(id, since) => s.(scans := s.scans[id := Begun(since, s.counter)])
    case Answer(id) =>
      var scan := s.scans[id];
      var shown := set c | c in s.rows && c > scan.since;
      var missed := set c | c in s.inFlight && c <= scan.next;
      s.(scans := s.scans[id := Answered(scan.since, scan.next, shown, missed, s.answers)], answers := s.answers + 1)
  }

  ghost predicate Step(s: State, e: Event, t: State) {
    Enabled(s, e) && t == Apply(s, e)
  }

  ghost predicate Next(s: State, t: State) {
    exists e: Event :: Step(s, e, t)
  }

  ghost predicate Run(run: seq<State>) {
    run != [] && run[0] == Init && forall i :: 0 < i < |run| ==> Next(run[i - 1], run[i])
  }

  // ---------- what every step keeps ----------

  ghost predicate Placed(s: State) {
    && (forall c :: c in s.inFlight || c in s.rows ==> c <= s.counter) && s.inFlight !! s.rows
    && (forall id :: id in s.scans ==> s.scans[id].since <= s.scans[id].next <= s.counter)
  }

  ghost predicate AnswerOk(s: State, a: Scan)
    requires a.Answered?
  {
    && a.at < s.answers && a.shown !! s.inFlight && a.shown !! a.missed
    && (forall c :: c in a.shown ==> a.since < c <= s.counter)
    && (forall c :: c in s.inFlight && c <= a.next ==> c in a.missed)
    && (forall c :: c in s.rows && a.since < c <= a.next ==> c in a.shown || c in a.missed)
  }

  /** What a sync missed, no earlier answer had shown. */
  ghost predicate InOrder(a: Scan, b: Scan)
    requires a.Answered? && b.Answered?
  {
    a.at < b.at ==> a.shown !! b.missed
  }

  ghost predicate IsAnswer(s: State, id: ScanId) {
    id in s.scans && s.scans[id].Answered?
  }

  ghost predicate Inv(s: State) {
    && Placed(s)
    && (forall id :: IsAnswer(s, id) ==> AnswerOk(s, s.scans[id]))
    && (forall a, b :: IsAnswer(s, a) && IsAnswer(s, b) ==> InOrder(s.scans[a], s.scans[b]))
  }

  lemma PlacedKeeps(s: State, e: Event, t: State)
    requires Placed(s) && Step(s, e, t)
    ensures Placed(t)
  {
  }

  lemma AnswersKeep(s: State, e: Event, t: State, id: ScanId)
    requires Inv(s) && Step(s, e, t) && IsAnswer(t, id)
    ensures AnswerOk(t, t.scans[id])
  {
    if IsAnswer(s, id) { assert AnswerOk(s, s.scans[id]); }
  }

  lemma OrderKeeps(s: State, e: Event, t: State, a: ScanId, b: ScanId)
    requires Inv(s) && Step(s, e, t) && IsAnswer(t, a) && IsAnswer(t, b)
    ensures InOrder(t.scans[a], t.scans[b])
  {
    if IsAnswer(s, a) { assert AnswerOk(s, s.scans[a]); }
    if IsAnswer(s, b) { assert AnswerOk(s, s.scans[b]); }
    if IsAnswer(s, a) && IsAnswer(s, b) { assert InOrder(s.scans[a], s.scans[b]); }
  }

  lemma StepKeeps(s: State, e: Event, t: State)
    requires Inv(s) && Step(s, e, t)
    ensures Inv(t)
  {
    PlacedKeeps(s, e, t);
    forall id | IsAnswer(t, id) ensures AnswerOk(t, t.scans[id]) { AnswersKeep(s, e, t, id); }
    forall a, b | IsAnswer(t, a) && IsAnswer(t, b) ensures InOrder(t.scans[a], t.scans[b]) {
      OrderKeeps(s, e, t, a, b);
    }
  }

  lemma {:induction false} RunInv(run: seq<State>, k: nat)
    requires Run(run) && k < |run|
    ensures Inv(run[k])
  {
    if k > 0 {
      RunInv(run, k - 1);
      assert Next(run[k - 1], run[k]);
      var e: Event :| Step(run[k - 1], e, run[k]);
      StepKeeps(run[k - 1], e, run[k]);
    }
  }

  // ---------- what clients may rely on ----------

  lemma ScanStep(s: State, e: Event, t: State, id: ScanId)
    requires Step(s, e, t) && id in t.scans
    ensures id !in s.scans ==> e.Begin? && e.id == id && t.scans[id] == Begun(e.since, s.counter)
    ensures id in s.scans ==> t.scans[id].since == s.scans[id].since && t.scans[id].next == s.scans[id].next
    ensures IsAnswer(s, id) ==> t.scans[id] == s.scans[id]
    ensures IsAnswer(t, id) && !IsAnswer(s, id) ==>
              && e == Answer(id) && (forall c :: c in t.scans[id].shown <==> c in s.rows && s.scans[id].since < c)
              && (forall c :: c in t.scans[id].missed <==> c in s.inFlight && c <= s.scans[id].next)
  {
  }

  /** The tokens of a sync: the old one is what it was asked for, the new one the position at which it began. */
  lemma {:induction false} TokenIsBegin(run: seq<State>, k: nat, id: ScanId) returns (b: nat)
    requires Run(run) && k < |run| && id in run[k].scans
    ensures b < k && Step(run[b], Begin(id, run[k].scans[id].since), run[b + 1])
    ensures run[k].scans[id].next == run[b].counter
    decreases k
  {
    hide Apply, Enabled;
    var n := k - 1;
    assert Next(run[n], run[k]);
    var e: Event :| Step(run[n], e, run[k]);
    ScanStep(run[n], e, run[k], id);
    if id in run[n].scans {
      b := TokenIsBegin(run, n, id);
    } else {
      b := n;
    }
  }

  /** An answer shows exactly the entries above the old token that were there when it was given, and it missed
      those that were on their way then, with positions up to the new token. */
  lemma {:induction false} AnswerShowsRows(run: seq<State>, k: nat, id: ScanId) returns (j: nat)
    requires Run(run) && k < |run| && IsAnswer(run[k], id)
    ensures j < k && Step(run[j], Answer(id), run[j + 1])
    ensures forall c :: c in run[k].scans[id].shown <==> c in run[j].rows && run[k].scans[id].since < c
    ensures forall c :: c in run[k].scans[id].missed <==> c in run[j].inFlight && c <= run[k].scans[id].next
    decreases k
  {
    hide Apply, Enabled;
    var n := k - 1;
    assert Next(run[n], run[k]);
    var e: Event :| Step(run[n], e, run[k]);
    ScanStep(run[n], e, run[k], id);
    if IsAnswer(run[n], id) {
      j := AnswerShowsRows(run, n, id);
    } else {
      j := n;
    }
  }

  /** In every run, an entry that is there with a position between the two tokens of an answer was shown by
      it, exactly unless it was on its way when the sync looked. */
  lemma ShownIff(run: seq<State>, k: nat, id: ScanId, c: nat)
    requires Run(run) && k < |run| && IsAnswer(run[k], id)
    requires c in run[k].rows && run[k].scans[id].since < c <= run[k].scans[id].next
    ensures c in run[k].scans[id].shown <==> c !in run[k].scans[id].missed
  {
    RunInv(run, k);
    assert AnswerOk(run[k], run[k].scans[id]);
  }

  /** A device's syncs, each starting from the token the previous one returned. */
  ghost predicate Chain(s: State, ids: seq<ScanId>) {
    && (forall i :: 0 <= i < |ids| ==> IsAnswer(s, ids[i]))
    && (forall i :: 0 < i < |ids| ==> s.scans[ids[i]].since == s.scans[ids[i - 1]].next)
    && (forall i, j :: 0 <= i < j < |ids| ==> s.scans[ids[i]].at < s.scans[ids[j]].at)
  }

  lemma {:induction false} TokensRise(s: State, ids: seq<ScanId>, i: nat, j: nat)
    requires Placed(s) && Chain(s, ids) && i < j < |ids|
    ensures s.scans[ids[i]].next <= s.scans[ids[j]].since
    decreases j
  {
    if i + 1 < j { TokensRise(s, ids, i, j - 1); }
  }

  lemma {:induction false} Covering(s: State, ids: seq<ScanId>, c: nat) returns (i: nat)
    requires Chain(s, ids) && ids != [] && s.scans[ids[0]].since < c <= s.scans[ids[|ids| - 1]].next
    ensures i < |ids| && s.scans[ids[i]].since < c <= s.scans[ids[i]].next
    decreases |ids|
  {
    var n := |ids| - 1;
    if s.scans[ids[n]].since < c {
      i := n;
    } else {
      i := Covering(s, ids[..n], c);
    }
  }

  /** Over a chain of syncs, an entry that is there with a position from the first token to the last was
      shown by one of them if and only if it was not on its way when the sync whose tokens it lies between
      looked. */
  lemma ChainShowsIff(run: seq<State>, k: nat, ids: seq<ScanId>, c: nat) returns (i: nat)
    requires Run(run) && k < |run| && ids != [] && Chain(run[k], ids) && c in run[k].rows
    requires run[k].scans[ids[0]].since < c <= run[k].scans[ids[|ids| - 1]].next
    ensures i < |ids| && run[k].scans[ids[i]].since < c <= run[k].scans[ids[i]].next
    ensures (exists j :: 0 <= j < |ids| && c in run[k].scans[ids[j]].shown) <==> c !in run[k].scans[ids[i]].missed
  {
    var s := run[k];
    RunInv(run, k);
    i := Covering(s, ids, c);
    ShownIff(run, k, ids[i], c);
    if c in s.scans[ids[i]].missed {
      forall j | 0 <= j < |ids| ensures c !in s.scans[ids[j]].shown {
        assert IsAnswer(s, ids[j]) && AnswerOk(s, s.scans[ids[j]]) && InOrder(s.scans[ids[j]], s.scans[ids[i]]);
        if i < j { TokensRise(s, ids, i, j); }
      }
    }
  }

  /** From every reachable state with an entry on its way, a sync that begins and looks before the entry is
      written misses it. */
  lemma InFlightIsMissed(run: seq<State>, c: nat, id: ScanId, since: nat) returns (ts: seq<State>)
    requires Run(run) && c in run[|run| - 1].inFlight && id !in run[|run| - 1].scans && since < c
    ensures Run(run + ts) && |ts| == 3 && c in ts[2].rows && IsAnswer(ts[2], id)
    ensures ts[2].scans[id].since < c <= ts[2].scans[id].next && c in ts[2].scans[id].missed
  {
    var s := run[|run| - 1];
    RunInv(run, |run| - 1);
    var s1 := Apply(s, Begin(id, since));
    var s2 := Apply(s1, Answer(id));
    var s3 := Apply(s2, Insert(c));
    assert Step(s, Begin(id, since), s1) && Step(s1, Answer(id), s2) && Step(s2, Insert(c), s3);
    ts := [s1, s2, s3];
    var all := run + ts;
    forall i | 0 < i < |all| ensures Next(all[i - 1], all[i]) {
      if i < |run| { assert Next(run[i - 1], run[i]); }
    }
  }
}
