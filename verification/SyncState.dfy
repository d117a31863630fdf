/** The state section of sync responses. The server records, per room and token, which state a
    client that holds the token was given, and later sends only the difference to it. */
module SyncState {
  import opened Wrappers

  type Room = nat
  type ClientId = nat
  type StateKey = string
  type EventId = string
  type RoomState = map<StateKey, EventId>

  /** A state identified by its position in the list of saved states. */
  type Hash = nat

  /** What else shapes the section of one room: an empty timeline, the user having joined since the
      last sync, a request for the full state, and members repeated for the timeline's senders. */
  datatype Options = Options(quiet: bool, rejoined: bool, full: bool, members: set<StateKey>)

  // ---------- one response ----------

  function Restrict(st: RoomState, keys: set<StateKey>): RoomState {
    map k | k in st && k in keys :: st[k]
  }

  function Difference(before: RoomState, now: RoomState, full: bool): RoomState {
    map k | k in now && (full || k !in before || before[k] != now[k]) :: now[k]
  }

  /** The state section: nothing when nothing changed, the whole state for a room that is new to
      the client, and otherwise the difference to the state recorded for its token. */
  function Section(states: seq<RoomState>, since: Option<Hash>, current: Hash, o: Options): RoomState
    requires current < |states| && (since.Some? ==> since.value < |states|)
  {
    if o.quiet && since == Some(current) then map[]
    else if since.None? || o.rejoined then states[current]
    else (if since.value != current then Difference(states[since.value], states[current], o.full) else map[])
         + Restrict(states[current], o.members)
  }

  /** Goes through the current state key by key. */
  method Collect(before: RoomState, now: RoomState, full: bool) returns (r: RoomState)
    ensures r == Difference(before, now, full)
  {
    r := map[];
    var left := now.Keys;
    while left != {}
      invariant left <= now.Keys
      invariant forall k :: k in r <==> k in now && k !in left && (full || k !in before || before[k] != now[k])
      invariant forall k :: k in r ==> r[k] == now[k]
      decreases |left|
    {
      var k :| k in left;
      left := left - {k};
      if full || k !in before || before[k] != now[k] { r := r[k := now[k]]; }
    }
  }

  method AddMembers(delta: RoomState, now: RoomState, members: set<StateKey>) returns (r: RoomState)
    ensures r == delta + Restrict(now, members)
  {
    r := delta;
    var left := members;
    while left != {}
      invariant left <= members
      invariant forall k :: k in r <==> k in delta || (k in now && k in members && k !in left)
      invariant forall k :: k in r ==> r[k] == if k in now && k in members && k !in left then now[k] else delta[k]
      decreases |left|
    {
      var k :| k in left;
      left := left - {k};
      if k in now { r := r[k := now[k]]; }
    }
  }

  method StateSection(states: seq<RoomState>, since: Option<Hash>, current: Hash, o: Options) returns (r: RoomState)
    requires current < |states| && (since.Some? ==> since.value < |states|)
    ensures r == Section(states, since, current, o)
  {
    if o.quiet && since == Some(current) { return map[]; }
    if since.None? || o.rejoined { return states[current]; }
    r := map[];
    if since.value != current { r := Collect(states[since.value], states[current], o.full); }
    r := AddMembers(r, states[current], o.members);
  }

  /** The client holds the server's value for every key the server has. */
  ghost predicate Agrees(view: RoomState, st: RoomState) {
    forall k :: k in st ==> k in view && view[k] == st[k]
  }

  /** The section repairs any view that agreed with the recorded state, whichever branch made it;
      a view of nothing is repaired when nothing is recorded or the user joined since. */
  lemma SectionRepairs(states: seq<RoomState>, since: Option<Hash>, current: Hash, o: Options, view: RoomState)
    requires current < |states| && (since.Some? ==> since.value < |states|)
    requires o.rejoined ==> since != Some(current)
    requires since.Some? && !o.rejoined ==> Agrees(view, states[since.value])
    ensures Agrees(view + Section(states, since, current, o), states[current])
  {
  }

  /** A section holds current values only. Of a room that the client had, and without a request for the full
      state, it holds no key that has not changed, repeated members aside. */
  lemma SectionIsDelta(states: seq<RoomState>, since: Option<Hash>, current: Hash, o: Options, k: StateKey)
    requires current < |states| && (since.Some? ==> since.value < |states|)
    ensures var section, now := Section(states, since, current, o), states[current];
      && (k in section ==> k in now && section[k] == now[k])
      && (since.Some? && !o.rejoined && !o.full && k in section && k !in o.members ==>
            k !in states[since.value] || states[since.value][k] != now[k])
      && (k in now && k in o.members && !(o.quiet && since == Some(current)) ==> k in section)
      && (o.quiet && since == Some(current) ==> k !in section)
  {
  }

  /** And the difference is the least that repairs: a client that holds the recorded state and is sent all of it
      but one key is left in disagreement. */
  lemma DeltaIsLeast(states: seq<RoomState>, since: Hash, current: Hash, o: Options, k: StateKey)
    requires current < |states| && since < |states| && !o.rejoined && !o.full && o.members == {}
    requires k in Section(states, Some(since), current, o)
    ensures !Agrees(states[since] + (Section(states, Some(since), current, o) - {k}), states[current])
  {
    var view := states[since] + (Section(states, Some(since), current, o) - {k});
    assert k in states[current] && !(k in view && view[k] == states[current][k]);
  }

  // ---------- the protocol ----------

  /** `since` is the token of the client's last sync and `rooms` are the rooms it covered: all that the
      user was in, also those that the response left out because there was nothing to show. */
  datatype Client = Client(since: nat, rooms: set<Room>, view: map<Room, RoomState>)

  datatype State = State(
    counter: nat,
    states: seq<RoomState>,
    current: map<Room, Hash>,
    recorded: map<(Room, nat), Hash>,
    clients: map<ClientId, Client>)

  datatype Event =
    | Tick
    | SaveState(st: RoomState)
    | SetState(room: Room, hash: Hash)
    | Sync(c: ClientId, rooms: map<Room, Options>)

  const Init := State(0, [], map[], map[], map[])

  function ClientOf(s: State, c: ClientId): Client {
    if c in s.clients then s.clients[c] else Client(0, {}, map[])
  }

  function ViewOf(client: Client, r: Room): RoomState {
    if r in client.view then client.view[r] else map[]
  }

  function RecordedAt(s: State, r: Room, token: nat): Option<Hash> {
    if (r, token) in s.recorded then Some(s.recorded[(r, token)]) else None
  }

  predicate CanAnswer(s: State, c: ClientId, r: Room) {
    && r in s.current && s.current[r] < |s.states|
    && (RecordedAt(s, r, ClientOf(s, c).since).Some? ==> RecordedAt(s, r, ClientOf(s, c).since).value < |s.states|)
  }

  /** A sync covers rooms that have state. A room that the client's last sync did not cover is one the
      user joined since; having joined, the user is in the current state and was not in the recorded
      one. */
  predicate Enabled(s: State, e: Event) {
    match e
    case Tick => true
    case SaveState(_) => true
    case SetState(_, h) => h < |s.states|
    case Sync(c, rooms) =>
      forall r :: r in rooms ==>
        && CanAnswer(s, c, r)
        && (r !in ClientOf(s, c).rooms ==> rooms[r].rejoined || RecordedAt(s, r, ClientOf(s, c).since).None?)
        && (rooms[r].rejoined ==> RecordedAt(s, r, ClientOf(s, c).since) != Some(s.current[r]))
  }

  function NewView(s: State, c: ClientId, r: Room, o: Options): RoomState
    requires CanAnswer(s, c, r)
  {
    ViewOf(ClientOf(s, c), r) + Section(s.states, RecordedAt(s, r, ClientOf(s, c).since), s.current[r], o)
  }

  function SyncClient(s: State, c: ClientId, rooms: map<Room, Options>): Client
    requires forall r :: r in rooms ==> CanAnswer(s, c, r)
  {
    var client := ClientOf(s, c);
    Client(s.counter, rooms.Keys,
           map r | r in client.view.Keys + rooms.Keys ::
             if r in rooms then NewView(s, c, r, rooms[r]) else client.view[r])
  }

  function Record(s: State, rooms: set<Room>): map<(Room, nat), Hash>
    requires rooms <= s.current.Keys
  {
    s.recorded + map p | p in (set r | r in rooms :: (r, s.counter)) :: s.current[p.0]
  }

  function Apply(s: State, e: Event): State
    requires Enabled(s, e)
  {
    match e
    case Tick => s.(counter := s.counter + 1)
    case SaveState(st) => s.(counter := s.counter + 1, states := s.states + [st])
    case SetState(r, h) => s.(current := s.current[r := h])
    case Sync(c, rooms) =>
      s.(recorded := Record(s, rooms.Keys), clients := s.clients[c := SyncClient(s, c, rooms)])
  }

  ghost predicate Step(s: State, e: Event, t: State) {
    Enabled(s, e) && t == Apply(s, e)
  }

  ghost predicate Next(s: State, t: State) {
    exists e: Event :: Step(s, e, t)
  }

  ghost predicate Run(run: seq<State>) {
    run != [] && run[0] == Init && forall i :: 0 < i < |run| ==> Next(run[i - 1], run[i])
  }

  /** Tokens and states that are referred to exist. */
  ghost predicate Formed(s: State) {
    && (s.states != [] ==> s.counter > 0)
    && (forall r :: r in s.current ==> s.current[r] < |s.states|)
    && (forall p :: p in s.recorded ==> s.recorded[p] < |s.states| && 0 < p.1 <= s.counter)
    && (forall c :: c in s.clients ==> s.clients[c].since <= s.counter)
  }

  /** The client still agrees with the state recorded for its token. */
  ghost predicate Holds(s: State, client: Client, r: Room) {
    && RecordedAt(s, r, client.since).Some?
    && RecordedAt(s, r, client.since).value < |s.states|
    && Agrees(ViewOf(client, r), s.states[RecordedAt(s, r, client.since).value])
  }

  /** A client that was sent the room agrees with what its token stands for. */
  ghost predicate Sound(s: State, c: ClientId, r: Room) {
    c in s.clients && r in s.clients[c].rooms ==> Holds(s, s.clients[c], r)
  }

  lemma RecordIs(s: State, rooms: set<Room>, r: Room, token: nat)
    requires rooms <= s.current.Keys
    ensures (r, token) in Record(s, rooms) <==> (r, token) in s.recorded || (r in rooms && token == s.counter)
    ensures (r, token) in Record(s, rooms) ==>
              Record(s, rooms)[(r, token)] ==
              if r in rooms && token == s.counter then s.current[r] else s.recorded[(r, token)]
  {
  }

  lemma FormedKeeps(s: State, e: Event, t: State)
    requires Formed(s) && Step(s, e, t)
    ensures Formed(t)
  {
    if e.Sync? {
      forall p | p in t.recorded ensures t.recorded[p] < |t.states| && 0 < p.1 <= t.counter {
        RecordIs(s, e.rooms.Keys, p.0, p.1);
        if p.0 in e.rooms.Keys { assert CanAnswer(s, e.c, p.0); }
      }
    }
  }

  lemma {:induction false} RunFormed(run: seq<State>, k: nat)
    requires Run(run) && k < |run|
    ensures Formed(run[k])
  {
    if k > 0 {
      RunFormed(run, k - 1);
      assert Next(run[k - 1], run[k]);
      var e: Event :| Step(run[k - 1], e, run[k]);
      FormedKeeps(run[k - 1], e, run[k]);
    }
  }

  /** A sound client's own sync leaves it in agreement with the current state of each room it covers. */
  lemma SyncAgrees(s: State, c: ClientId, rooms: map<Room, Options>, t: State, r: Room)
    requires Formed(s) && Sound(s, c, r) && Step(s, Sync(c, rooms), t) && r in rooms
    ensures Agrees(ViewOf(t.clients[c], r), t.states[t.current[r]])
    ensures Holds(t, t.clients[c], r)
  {
    var client := ClientOf(s, c);
    var since := RecordedAt(s, r, client.since);
    if since.Some? && !rooms[r].rejoined {
      assert c in s.clients && Holds(s, client, r);
    }
    SectionRepairs(s.states, since, s.current[r], rooms[r], ViewOf(client, r));
    RecordIs(s, rooms.Keys, r, s.counter);
  }

  /** Another client's sync replaces the record behind the client's token by a state that the client does
      not have. */
  ghost predicate Overwrites(s: State, e: Event, c: ClientId, r: Room) {
    && e.Sync? && e.c != c && r in e.rooms && c in s.clients && r in s.clients[c].rooms
    && s.clients[c].since == s.counter && r in s.current && s.current[r] < |s.states|
    && !Agrees(ViewOf(s.clients[c], r), s.states[s.current[r]])
  }

  /** Nothing but such a step, and that step always, leaves a sound client unsound. */
  lemma SoundUnlessOverwritten(s: State, e: Event, t: State, c: ClientId, r: Room)
    requires Formed(s) && Sound(s, c, r) && Step(s, e, t)
    ensures Sound(t, c, r) <==> !Overwrites(s, e, c, r)
  {
    if e.Sync? && e.c == c {
      if r in e.rooms { SyncAgrees(s, c, e.rooms, t, r); }
    } else if c in s.clients && r in s.clients[c].rooms {
      assert Holds(s, s.clients[c], r) && t.clients[c] == s.clients[c];
      if e.Sync? {
        RecordIs(s, e.rooms.Keys, r, s.clients[c].since);
        if r in e.rooms { assert CanAnswer(s, e.c, r); }
      }
    }
  }

  ghost predicate UndisturbedNext(s: State, t: State, c: ClientId, r: Room) {
    exists e: Event :: Step(s, e, t) && !Overwrites(s, e, c, r)
  }

  /** From state `j` to state `k` nobody overwrites the client's record of the room. */
  ghost predicate Undisturbed(run: seq<State>, j: nat, k: nat, c: ClientId, r: Room)
    requires j <= k < |run|
  {
    forall i :: j < i <= k ==> UndisturbedNext(run[i - 1], run[i], c, r)
  }

  lemma {:induction false} UndisturbedIsSound(run: seq<State>, j: nat, k: nat, c: ClientId, r: Room)
    requires Run(run) && j <= k < |run| && Sound(run[j], c, r) && Undisturbed(run, j, k, c, r)
    ensures Sound(run[k], c, r)
    decreases k
  {
    hide Sound;
    if j < k {
      UndisturbedIsSound(run, j, k - 1, c, r);
      RunFormed(run, k - 1);
      assert UndisturbedNext(run[k - 1], run[k], c, r);
      var e: Event :| Step(run[k - 1], e, run[k]) && !Overwrites(run[k - 1], e, c, r);
      SoundUnlessOverwritten(run[k - 1], e, run[k], c, r);
    }
  }

  // ---------- agreement ----------

  /** In every run, a sync leaves its client in agreement with the server about a room, if the client was
      sound at some earlier time, as it is before its first sync, and nobody has overwritten its record of
      that room since. */
  lemma ClientAgrees(run: seq<State>, j: nat, k: nat, c: ClientId, rooms: map<Room, Options>, r: Room)
    requires Run(run) && j <= k && k + 1 < |run| && Sound(run[j], c, r) && Undisturbed(run, j, k, c, r)
    requires Step(run[k], Sync(c, rooms), run[k + 1]) && r in rooms
    ensures c in run[k + 1].clients && r in run[k + 1].current && run[k + 1].current[r] < |run[k + 1].states|
    ensures Agrees(ViewOf(run[k + 1].clients[c], r), run[k + 1].states[run[k + 1].current[r]])
  {
    RunFormed(run, k);
    UndisturbedIsSound(run, j, k, c, r);
    SyncAgrees(run[k], c, rooms, run[k + 1], r);
  }

  /** A sync that sends the whole state of a room makes its client sound, whatever happened before. */
  lemma WholeStateIsSound(run: seq<State>, k: nat, c: ClientId, rooms: map<Room, Options>, r: Room)
    requires Run(run) && k + 1 < |run| && Step(run[k], Sync(c, rooms), run[k + 1]) && r in rooms
    requires var since := RecordedAt(run[k], r, ClientOf(run[k], c).since);
      since.None? || rooms[r].rejoined || (rooms[r].full && r in run[k].current && since != Some(run[k].current[r]))
    ensures Sound(run[k + 1], c, r)
  {
    hide Section;
    var s := run[k];
    RunFormed(run, k);
    ViewAfter(s, c, rooms, run[k + 1], r);
    WholeSection(s.states, RecordedAt(s, r, ClientOf(s, c).since), s.current[r], rooms[r]);
    RecordIs(s, rooms.Keys, r, s.counter);
  }

  lemma WholeSection(states: seq<RoomState>, since: Option<Hash>, current: Hash, o: Options)
    requires current < |states| && (since.Some? ==> since.value < |states|)
    requires o.rejoined || o.full ==> since != Some(current)
    requires since.None? || o.rejoined || o.full
    ensures Agrees(Section(states, since, current, o), states[current])
  {
  }

  /** A section never takes keys away, so the client then holds exactly the server's state if and
      only if it held no key that the server has dropped. */
  lemma ExactUnlessDropped(run: seq<State>, j: nat, k: nat, c: ClientId, rooms: map<Room, Options>, r: Room)
    requires Run(run) && j <= k && k + 1 < |run| && Sound(run[j], c, r) && Undisturbed(run, j, k, c, r)
    requires Step(run[k], Sync(c, rooms), run[k + 1]) && r in rooms
    ensures r in run[k].current && run[k].current[r] < |run[k].states|
    ensures ViewOf(run[k + 1].clients[c], r) == run[k].states[run[k].current[r]] <==>
            ViewOf(ClientOf(run[k], c), r).Keys <= run[k].states[run[k].current[r]].Keys
  {
    hide Undisturbed, Sound;
    ClientAgrees(run, j, k, c, rooms, r);
    var s := run[k];
    ViewAfter(s, c, rooms, run[k + 1], r);
    var section := Section(s.states, RecordedAt(s, r, ClientOf(s, c).since), s.current[r], rooms[r]);
    Overlaid(ViewOf(ClientOf(s, c), r), section, s.states[s.current[r]]);
  }

  lemma ViewAfter(s: State, c: ClientId, rooms: map<Room, Options>, t: State, r: Room)
    requires Step(s, Sync(c, rooms), t) && r in rooms
    ensures CanAnswer(s, c, r) && c in t.clients
    ensures ViewOf(t.clients[c], r) == NewView(s, c, r, rooms[r])
    ensures Section(s.states, RecordedAt(s, r, ClientOf(s, c).since), s.current[r], rooms[r]).Keys
            <= s.states[s.current[r]].Keys
  {
  }

  lemma Overlaid(before: RoomState, section: RoomState, now: RoomState)
    requires section.Keys <= now.Keys && Agrees(before + section, now)
    ensures before + section == now <==> before.Keys <= now.Keys
  {
    var view := before + section;
    assert view.Keys == before.Keys + section.Keys;
    if before.Keys <= now.Keys {
      forall k | k in view ensures k in now && now[k] == view[k] {
        assert k in now;
      }
    }
  }

  // ---------- how a record comes to be overwritten ----------

  /** The room's state changes only when no sync has been answered from it at the current position:
      either the position has moved on, or nobody has asked. */
  predicate Spaced(s: State, e: Event, r: Room) {
    e.SetState? && e.room == r && (r, s.counter) in s.recorded ==> r in s.current && e.hash == s.current[r]
  }

  ghost predicate SpacedNext(s: State, t: State, r: Room) {
    exists e: Event :: Step(s, e, t) && Spaced(s, e, r)
  }

  ghost predicate SpacedRun(run: seq<State>, r: Room) {
    run != [] && run[0] == Init && forall i :: 0 < i < |run| ==> SpacedNext(run[i - 1], run[i], r)
  }

  /** What is recorded at the current position is the current state. */
  ghost predicate Latest(s: State, r: Room) {
    (r, s.counter) in s.recorded ==> r in s.current && s.recorded[(r, s.counter)] == s.current[r]
  }

  lemma LatestKeeps(s: State, e: Event, t: State, r: Room)
    requires Formed(s) && Latest(s, r) && Step(s, e, t) && Spaced(s, e, r)
    ensures Latest(t, r)
  {
    if e.Sync? { RecordIs(s, e.rooms.Keys, r, t.counter); }
  }

  lemma LatestIsSafe(s: State, e: Event, c: ClientId, r: Room)
    requires Latest(s, r) && Sound(s, c, r)
    ensures !Overwrites(s, e, c, r)
  {
  }

  /** While the changes of a room are spaced, no client's record of it is ever overwritten. */
  lemma {:induction false} SpacedIsUndisturbed(run: seq<State>, k: nat, c: ClientId, r: Room)
    requires SpacedRun(run, r) && k < |run|
    ensures Formed(run[k]) && Latest(run[k], r) && Sound(run[k], c, r) && Undisturbed(run, 0, k, c, r)
  {
    hide Sound, Latest, Formed;
    if k > 0 {
      SpacedIsUndisturbed(run, k - 1, c, r);
      assert SpacedNext(run[k - 1], run[k], r);
      var e: Event :| Step(run[k - 1], e, run[k]) && Spaced(run[k - 1], e, r);
      FormedKeeps(run[k - 1], e, run[k]);
      LatestKeeps(run[k - 1], e, run[k], r);
      LatestIsSafe(run[k - 1], e, c, r);
      SoundUnlessOverwritten(run[k - 1], e, run[k], c, r);
      assert UndisturbedNext(run[k - 1], run[k], c, r);
    } else {
      StartIsSound(c, r);
    }
  }

  lemma StartIsSound(c: ClientId, r: Room)
    ensures Formed(Init) && Latest(Init, r) && Sound(Init, c, r)
  {
  }

  /** The plain request of a client that only polls. */
  const Poll := Options(true, false, false, {})

  const Fresh := Options(true, true, false, {})

  lemma Extend(run: seq<State>, t: State)
    requires Run(run) && Next(run[|run| - 1], t)
    ensures Run(run + [t])
  {
    var more := run + [t];
    forall i | 0 < i < |more| ensures Next(more[i - 1], more[i]) {
      assert more[i - 1] == run[i - 1];
    }
  }

  lemma SetChanges(s: State, r: Room, h: Hash) returns (t: State)
    requires Formed(s) && h < |s.states|
    ensures Next(s, t) && Step(s, SetState(r, h), t)
    ensures Formed(t) && t == s.(current := t.current) && r in t.current && t.current[r] == h
  {
    t := Apply(s, SetState(r, h));
    assert Step(s, SetState(r, h), t);
    FormedKeeps(s, SetState(r, h), t);
  }

  /** A first sync at the current position records the current state there. */
  lemma FirstSyncRecords(s: State, b: ClientId, r: Room) returns (t: State)
    requires Formed(s) && b !in s.clients && r in s.current
    ensures Next(s, t) && Step(s, Sync(b, map[r := Fresh]), t)
    ensures Formed(t) && t.counter == s.counter && t.states == s.states && t.current == s.current
    ensures RecordedAt(t, r, s.counter) == Some(s.current[r])
    ensures forall a :: a in s.clients ==> a in t.clients && t.clients[a] == s.clients[a]
  {
    var e := Sync(b, map[r := Fresh]);
    assert RecordedAt(s, r, 0).None?;
    assert Enabled(s, e);
    t := Apply(s, e);
    assert Step(s, e, t);
    FormedKeeps(s, e, t);
    assert e.rooms.Keys == {r};
    RecordIs(s, {r}, r, s.counter);
  }

  /** A client whose token stands for the current state is sent nothing. */
  lemma PollIsEmpty(s: State, a: ClientId, r: Room) returns (t: State)
    requires Formed(s) && a in s.clients && r in s.clients[a].rooms && r in s.current
    requires RecordedAt(s, r, s.clients[a].since) == Some(s.current[r])
    ensures Next(s, t) && Step(s, Sync(a, map[r := Poll]), t) && t.states == s.states && t.current == s.current
    ensures a in t.clients && r in t.clients[a].rooms && ViewOf(t.clients[a], r) == ViewOf(s.clients[a], r)
  {
    var e := Sync(a, map[r := Poll]);
    assert Enabled(s, e);
    t := Apply(s, e);
    assert Step(s, e, t);
    assert ViewOf(s.clients[a], r) + map[] == ViewOf(s.clients[a], r);
  }

  /** After an overwrite the client's token stands for the current state, so a sync that follows sends
      nothing but repeated members. It leaves agreement if and only if it is not quiet and every key that
      the client misses is among them. */
  lemma AgreesAfterOverwriteIff(run: seq<State>, k: nat, e: Event, c: ClientId, r: Room, rooms: map<Room, Options>)
    requires Run(run) && k + 2 < |run| && Step(run[k], e, run[k + 1]) && Overwrites(run[k], e, c, r)
    requires Step(run[k + 1], Sync(c, rooms), run[k + 2]) && r in rooms
    ensures c in run[k + 2].clients && r in run[k].current && run[k].current[r] < |run[k].states|
    ensures run[k + 2].current == run[k].current && run[k + 2].states == run[k].states
    ensures var view, now := ViewOf(run[k].clients[c], r), run[k].states[run[k].current[r]];
      Agrees(ViewOf(run[k + 2].clients[c], r), now) <==>
      !rooms[r].quiet && forall key :: key in now && !(key in view && view[key] == now[key]) ==> key in rooms[r].members
  {
    var s, t := run[k], run[k + 1];
    RecordIs(s, e.rooms.Keys, r, s.counter);
    ViewAfter(t, c, rooms, run[k + 2], r);
    assert RecordedAt(t, r, t.clients[c].since) == Some(t.current[r]);
    RepeatedOnly(t.states, t.current[r], rooms[r], ViewOf(t.clients[c], r));
  }

  lemma RepeatedOnly(states: seq<RoomState>, current: Hash, o: Options, view: RoomState)
    requires current < |states| && !o.rejoined && !Agrees(view, states[current])
    ensures var now := states[current];
      Agrees(view + Section(states, Some(current), current, o), now) <==>
      !o.quiet && forall key :: key in now && !(key in view && view[key] == now[key]) ==> key in o.members
  {
    var now := states[current];
    if o.quiet {
      assert view + map[] == view;
    } else {
      assert Section(states, Some(current), current, o) == Restrict(now, o.members);
    }
  }

  /** In every run, a client whose record was just overwritten is left in disagreement by its next poll. */
  lemma OverwriteIsMissed(run: seq<State>, k: nat, e: Event, c: ClientId, r: Room) returns (u: State)
    requires Run(run) && k + 1 < |run| && Step(run[k], e, run[k + 1]) && Overwrites(run[k], e, c, r)
    ensures Step(run[k + 1], Sync(c, map[r := Poll]), u) && c in u.clients && r in u.clients[c].rooms
    ensures r in u.current && u.current[r] < |u.states| && !Agrees(ViewOf(u.clients[c], r), u.states[u.current[r]])
  {
    var s, t := run[k], run[k + 1];
    RunFormed(run, k + 1);
    RecordIs(s, e.rooms.Keys, r, s.counter);
    u := PollIsEmpty(t, c, r);
  }

  /** From any reachable state in which a client has just synced, a state change at the same
      position, a first sync by anyone else and another sync of the client leave it without the
      change. */
  lemma UnspacedChangeIsMissed(run: seq<State>, a: ClientId, b: ClientId, r: Room, h: Hash, k: StateKey)
    returns (more: seq<State>)
    requires Run(run) && var s := run[|run| - 1];
      && a in s.clients && r in s.clients[a].rooms && s.clients[a].since == s.counter
      && b !in s.clients && h < |s.states| && k in s.states[h]
      && !(k in ViewOf(s.clients[a], r) && ViewOf(s.clients[a], r)[k] == s.states[h][k])
    ensures Run(run + more) && |more| == 3
    ensures Step(run[|run| - 1], SetState(r, h), more[0]) && Step(more[0], Sync(b, map[r := Fresh]), more[1])
    ensures Step(more[1], Sync(a, map[r := Poll]), more[2])
    ensures var t := more[2];
      && a in t.clients && r in t.clients[a].rooms && r in t.current && t.current[r] < |t.states|
      && !Agrees(ViewOf(t.clients[a], r), t.states[t.current[r]])
  {
    hide Next, Step, Formed, RecordedAt, ViewOf;
    var s := run[|run| - 1];
    RunFormed(run, |run| - 1);
    var s1 := SetChanges(s, r, h);
    Extend(run, s1);
    var s2 := FirstSyncRecords(s1, b, r);
    Extend(run + [s1], s2);
    var s3 := PollIsEmpty(s2, a, r);
    Extend(run + [s1] + [s2], s3);
    more := [s1, s2, s3];
    assert run + more == run + [s1] + [s2] + [s3];
    assert k in s3.states[h];
  }
}
