/** Room writers and syncing clients, step by step. A writer holds its room's insert lock while it
    takes a position, stores the event and moves the cached last position. A sync notes the current
    position as its next token, passes through the lock, and then reads the timeline. */
module SyncTimeline {
  import opened Bytes
  import opened PduIds
  import opened Wrappers
  import T = Timeline

  type Room = nat
  type VisitId = nat

  /** How many events a response shows per room. */
  const LIMIT := 10

  /** Who holds the room's insert lock, and how far that writer has come. */
  datatype Holder = Free | Began | Allocated(c: PduCount) | Stored(c: PduCount) | Finished

  /** `seen` is what the room held when it was read. */
  datatype Stage = Waiting | Passed | Guarded | Answered(events: seq<PduCount>, limited: bool, seen: set<PduCount>)

  /** One room of one sync, from token `since` to token `next`. */
  datatype Visit = Visit(room: Room, since: U64, next: U64, stage: Stage)

  datatype State = State(
    counter: U64,
    log: map<Room, set<PduCount>>,
    holder: map<Room, Holder>,
    cache: map<Room, PduCount>,
    visits: map<VisitId, Visit>)

  datatype Event =
    | Tick
    | Lock(room: Room)
    | Allocate(room: Room, backfill: bool)
    | Store(room: Room)
    | SetCache(room: Room)
    | Unlock(room: Room)
    | ClearCache
    | Start(v: VisitId, room: Room, since: U64)
    | Pass(v: VisitId)
    | Guard(v: VisitId, last: PduCount)
    | Scan(v: VisitId, events: seq<PduCount>, limited: bool)

  const Init := State(0, map[], map[], map[], map[])

  function Log(s: State, r: Room): set<PduCount> {
    if r in s.log then s.log[r] else {}
  }

  function HolderOf(s: State, r: Room): Holder {
    if r in s.holder then s.holder[r] else Free
  }

  ghost predicate At(s: State, v: VisitId, stage: Stage) {
    v in s.visits && s.visits[v].stage == stage
  }

  ghost predicate Enabled(s: State, e: Event) {
    match e
    case Tick => s.counter + 1 < U64_MAX
    case Lock(r) => HolderOf(s, r) == Free
    case Allocate(r, _) => HolderOf(s, r) == Began && s.counter + 1 < U64_MAX
    case Store(r) => HolderOf(s, r).Allocated?
    case SetCache(r) => HolderOf(s, r).Stored?
    case Unlock(r) => !HolderOf(s, r).Free? && !HolderOf(s, r).Stored?
    case ClearCache => true
    case Start(v, _, _) => v !in s.visits
    case Pass(v) => At(s, v, Waiting) && HolderOf(s, s.visits[v].room) == Free
    case Guard(v, last) => At(s, v, Passed) && IsReadAs(s, s.visits[v].room, last)
    case Scan(v, events, limited) =>
      At(s, v, Guarded) && T.Shows(Log(s, s.visits[v].room), Normal(s.visits[v].since), LIMIT, events, limited)
  }

  /** The last position is the cached one, or else found by a scan. */
  ghost predicate IsReadAs(s: State, r: Room, last: PduCount) {
    if r in s.cache then last == s.cache[r] else T.IsLast(Log(s, r), last)
  }

  /** Everything stored by a writer that has also moved the cached position. */
  function Settled(s: State, r: Room): set<PduCount> {
    match HolderOf(s, r)
    case Stored(c) => Log(s, r) - {c}
    case _ => Log(s, r)
  }

  function Apply(s: State, e: Event): State
    requires e.Tick? || e.Allocate? ==> s.counter + 1 < U64_MAX
    requires e.Store? ==> HolderOf(s, e.room).Allocated?
    requires e.SetCache? ==> HolderOf(s, e.room).Stored?
    requires e.Pass? || e.Guard? || e.Scan? ==> e.v in s.visits
  {
    match e
    case Tick => s.(counter := s.counter + 1)
    case Lock(r) => s.(holder := s.holder[r := Began])
    case Allocate(r, backfill) =>
      var n := s.counter + 1;
      s.(counter := n, holder := s.holder[r := Allocated(if backfill then Backfilled(n) else Normal(n))])
    case Store(r) =>
      var c := HolderOf(s, r).c;
      s.(log := s.log[r := Log(s, r) + {c}], holder := s.holder[r := if c.Normal? then Stored(c) else Finished])
    case SetCache(r) =>
      s.(cache := s.cache[r := HolderOf(s, r).c], holder := s.holder[r := Finished])
    case Unlock(r) => s.(holder := s.holder[r := Free])
    case ClearCache => s.(cache := map[])
    case Start(v, r, since) => s.(visits := s.visits[v := Visit(r, since, s.counter, Waiting)])
    case Pass(v) => s.(visits := s.visits[v := s.visits[v].(stage := Passed)])
    case Guard(v, last) =>
      var visit := s.visits[v];
      var r := visit.room;
      var stage := if Less(Normal(visit.since), last) then Guarded else Answered([], false, Settled(s, r));
      s.(cache := if r !in s.cache && Log(s, r) != {} then s.cache[r := last] else s.cache,
         visits := s.visits[v := visit.(stage := stage)])
    case Scan(v, events, limited) =>
      var visit := s.visits[v];
      s.(visits := s.visits[v := visit.(stage := Answered(events, limited, Log(s, visit.room)))])
  }

  ghost predicate Step(s: State, e: Event, t: State) {
    Enabled(s, e) && t == Apply(s, e)
  }

  ghost predicate Next(s: State, t: State) {
    exists e: Event :: Step(s, e, t)
  }

  ghost predicate Run(run: seq<State>) {
    run != [] && run[0] == Init && forall i :: 0 < i < |run| ==> Next(run[i - 1], run[i])
  }

  // ---------- what every step keeps ----------

  /** Positions in the log were handed out, each writer's after all before it. */
  ghost predicate RoomInv(s: State, r: Room) {
    && (forall c :: c in Log(s, r) ==> c.n <= s.counter)
    && (HolderOf(s, r).Allocated? ==> HolderOf(s, r).c.n <= s.counter && After(Log(s, r), HolderOf(s, r).c))
    && (HolderOf(s, r).Stored? ==> HolderOf(s, r).c in Log(s, r) && HolderOf(s, r).c.Normal?
                                   && HolderOf(s, r).c.n <= s.counter
                                   && After(Log(s, r) - {HolderOf(s, r).c}, HolderOf(s, r).c))
  }

  ghost predicate After(log: set<PduCount>, c: PduCount) {
    forall x :: x in log ==> x.n < c.n
  }

  /** The cached position is the last one, but for an event stored this moment. */
  ghost predicate CacheInv(s: State, r: Room) {
    r in s.cache ==> s.cache[r] in Log(s, r) && forall x :: x in Settled(s, r) ==> AtMost(x, s.cache[r])
  }

  ghost predicate Unfinished(h: Holder) {
    h.Allocated? || h.Stored?
  }

  /** Whoever holds the lock after the visit passed it took a later position. */
  ghost predicate VisitInv(s: State, visit: Visit) {
    && visit.next <= s.counter
    && (!visit.stage.Waiting? && Unfinished(HolderOf(s, visit.room)) ==> visit.next < HolderOf(s, visit.room).c.n)
    && (visit.stage.Answered? ==> AnswerInv(s, visit))
  }

  ghost predicate AnswerInv(s: State, visit: Visit)
    requires visit.stage.Answered?
  {
    && T.Shows(visit.stage.seen, Normal(visit.since), LIMIT, visit.stage.events, visit.stage.limited)
    && visit.stage.seen <= Log(s, visit.room)
    && (forall c :: c in Log(s, visit.room) && c.n <= visit.next ==> c in visit.stage.seen)
  }

  ghost predicate Inv(s: State) {
    && (forall r :: RoomInv(s, r) && CacheInv(s, r))
    && (forall v :: v in s.visits ==> VisitInv(s, s.visits[v]))
  }

  lemma RoomsKeep(s: State, e: Event, t: State, r: Room)
    requires Inv(s) && Step(s, e, t)
    ensures RoomInv(t, r)
  {
    assert RoomInv(s, r);
  }

  lemma CacheKeeps(s: State, e: Event, t: State, r: Room)
    requires Inv(s) && Step(s, e, t)
    ensures CacheInv(t, r)
  {
    assert RoomInv(s, r) && CacheInv(s, r);
  }

  lemma EmptyAnswer(s: State, visit: Visit, last: PduCount)
    requires Inv(s) && IsReadAs(s, visit.room, last) && !Less(Normal(visit.since), last)
    ensures T.Shows(Settled(s, visit.room), Normal(visit.since), LIMIT, [], false)
  {
    var r := visit.room;
    assert CacheInv(s, r);
  }

  lemma VisitKeeps(s: State, e: Event, t: State, v: VisitId)
    requires Inv(s) && Step(s, e, t) && v in t.visits
    ensures VisitInv(t, t.visits[v])
  {
    hide T.Shows;
    assert RoomInv(s, t.visits[v].room);
    if v in s.visits {
      assert VisitInv(s, s.visits[v]);
      if e.Guard? && e.v == v && !Less(Normal(s.visits[v].since), e.last) { EmptyAnswer(s, s.visits[v], e.last); }
    }
  }

  lemma StepKeeps(s: State, e: Event, t: State)
    requires Inv(s) && Step(s, e, t)
    ensures Inv(t)
  {
    forall r ensures RoomInv(t, r) && CacheInv(t, r) {
      RoomsKeep(s, e, t, r);
      CacheKeeps(s, e, t, r);
    }
    forall v | v in t.visits ensures VisitInv(t, t.visits[v]) { VisitKeeps(s, e, t, v); }
  }

  lemma {:induction false} RunInv(run: seq<State>, k: nat)
    requires Run(run) && k < |run|
    ensures Inv(run[k])
  {
    if k > 0 {
      RunInv(run, k - 1);
      assert Next(run[k - 1], run[k]);
      var e: Event :| Step(run[k - 1], e, run[k]);
      StepKeeps(run[k - 1], e, run[k]);
    }
  }

  // ---------- what clients may rely on ----------

  ghost predicate AnsweredAt(s: State, v: VisitId) {
    v in s.visits && s.visits[v].stage.Answered?
  }

  /** Every answer shows exactly the last events of what it read, and it read everything up to its
      token, however many writers ran in between, now or later. */
  lemma AnswerIsExact(run: seq<State>, k: nat, v: VisitId)
    requires Run(run) && k < |run| && AnsweredAt(run[k], v)
    ensures AnswerInv(run[k], run[k].visits[v])
  {
    RunInv(run, k);
    assert VisitInv(run[k], run[k].visits[v]);
  }

  /** No event between the two tokens of a response is silently skipped. */
  lemma NothingSkipped(run: seq<State>, k: nat, v: VisitId, c: U64)
    requires Run(run) && k < |run| && AnsweredAt(run[k], v)
    requires Normal(c) in Log(run[k], run[k].visits[v].room) && run[k].visits[v].since < c <= run[k].visits[v].next
    ensures run[k].visits[v].stage.limited || Normal(c) in run[k].visits[v].stage.events
  {
    AnswerIsExact(run, k, v);
  }

  /** Of what it read, an answer shows the newest, in order: an event that comes after a shown one and took
      its position by the token is shown too. */
  lemma ShowsNewest(run: seq<State>, k: nat, v: VisitId, c: PduCount, x: PduCount)
    requires Run(run) && k < |run| && AnsweredAt(run[k], v)
    requires c in run[k].visits[v].stage.events
    requires x in Log(run[k], run[k].visits[v].room) && x.n <= run[k].visits[v].next
    ensures c in Log(run[k], run[k].visits[v].room) && Less(Normal(run[k].visits[v].since), c)
    ensures Less(c, x) ==> x in run[k].visits[v].stage.events
    ensures var events := run[k].visits[v].stage.events;
      forall i, j :: 0 <= i < j < |events| ==> Less(events[i], events[j])
  {
    AnswerIsExact(run, k, v);
  }

  /** An answer shows at most ten events, and ten if it is limited. If at most ten lie after the old token it is not
      limited and shows all of them up to the new one. */
  lemma FewAreAllShown(run: seq<State>, k: nat, v: VisitId)
    requires Run(run) && k < |run| && AnsweredAt(run[k], v)
    ensures var visit := run[k].visits[v]; var stage := visit.stage;
      && |stage.events| <= 10 && (stage.limited ==> |stage.events| == 10)
      && (|T.EventsAfter(Log(run[k], visit.room), Normal(visit.since))| <= 10 ==>
            && !stage.limited
            && forall c :: c in Log(run[k], visit.room) && Less(Normal(visit.since), c) && c.n <= visit.next ==>
                 c in stage.events)
  {
    AnswerIsExact(run, k, v);
    var visit := run[k].visits[v];
    var since, stage := Normal(visit.since), visit.stage;
    T.LimitedIff(stage.seen, since, LIMIT, stage.events, stage.limited);
    SubsetSize(T.EventsAfter(stage.seen, since), T.EventsAfter(Log(run[k], visit.room), since));
  }

  lemma VisitStep(s: State, e: Event, t: State, v: VisitId)
    requires Step(s, e, t) && v in t.visits
    ensures if v in s.visits then t.visits[v].(stage := s.visits[v].stage) == s.visits[v]
            else e == Start(v, t.visits[v].room, t.visits[v].since) && t.visits[v].next == s.counter
  {
  }

  /** The new token of a sync is the position at which it started, and its old one and room are those it was
      asked for. */
  lemma {:induction false} TokenIsStart(run: seq<State>, k: nat, v: VisitId) returns (j: nat)
    requires Run(run) && k < |run| && v in run[k].visits
    ensures j < k && Step(run[j], Start(v, run[k].visits[v].room, run[k].visits[v].since), run[j + 1])
    ensures run[k].visits[v].next == run[j].counter
    decreases k
  {
    hide Apply, Enabled;
    var n := k - 1;
    assert Next(run[n], run[k]);
    var e: Event :| Step(run[n], e, run[k]);
    VisitStep(run[n], e, run[k], v);
    if v in run[n].visits {
      j := TokenIsStart(run, n, v);
    } else {
      j := n;
    }
  }

  /** A device's syncs of one room, each starting from the token the previous one returned. */
  ghost predicate Chain(s: State, room: Room, vs: seq<VisitId>) {
    && (forall i :: 0 <= i < |vs| ==> AnsweredAt(s, vs[i]) && s.visits[vs[i]].room == room)
    && (forall i :: 0 < i < |vs| ==> s.visits[vs[i]].since == s.visits[vs[i - 1]].next)
  }

  /** Over a whole chain of syncs, each event from the first token to the last is in one of the
      responses, or a response said that it left events out. */
  lemma {:induction false} ChainMissesNothing(run: seq<State>, k: nat, room: Room, vs: seq<VisitId>, c: U64)
    returns (i: nat)
    requires Run(run) && k < |run| && vs != [] && Chain(run[k], room, vs)
    requires Normal(c) in Log(run[k], room)
    requires run[k].visits[vs[0]].since < c <= run[k].visits[vs[|vs| - 1]].next
    ensures i < |vs|
    ensures run[k].visits[vs[i]].stage.limited || Normal(c) in run[k].visits[vs[i]].stage.events
    decreases |vs|
  {
    var n := |vs| - 1;
    if run[k].visits[vs[n]].since < c {
      NothingSkipped(run, k, vs[n], c);
      i := n;
    } else {
      i := ChainMissesNothing(run, k, room, vs[..n], c);
    }
  }
}
