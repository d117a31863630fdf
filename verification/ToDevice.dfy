/** To-device messages: one queue per device in a shared tree, read by every sync of the device
    and acknowledged by the `since` token of the next one. */
module ToDevice {
  import opened Bytes
  import opened KvTree
  import opened CounterLog
  import opened Wrappers

  // ---------- the queues in the tree ----------

  function EventKey(user: Text, device: Text, count: U64): Bytes {
    Key(Pair(user, device), count)
  }

  ghost predicate Keyed(t: Table) {
    forall k :: k in t ==> exists u: Text, d: Text, c: U64 :: k == EventKey(u, d, c)
  }

  lemma KeyedIsLog(t: Table, user: Text, device: Text)
    requires Keyed(t)
    ensures IsLog(t, Pair(user, device))
  {
    forall k | k in t && Pair(user, device) <= k ensures |k| == |Pair(user, device)| + 8 {
      var u: Text, d: Text, c: U64 :| k == EventKey(u, d, c);
      PairPrefix(user, device, u, d, Be64(c));
    }
  }

  /** The tree without the device's events up to `until`. */
  function RemoveUntil(t: Table, user: Text, device: Text, until: U64): Table {
    t - set k | k in t && Pair(user, device) <= k && After(EventKey(user, device, until), k, true)
  }

  /** Acknowledging removes exactly that device's events with counts up to `until`. */
  lemma RemoveUntilExact(t: Table, user: Text, device: Text, until: U64, u: Text, d: Text, c: U64)
    ensures EventKey(u, d, c) in RemoveUntil(t, user, device, until) <==>
            EventKey(u, d, c) in t && !(u == user && d == device && c <= until)
    ensures EventKey(u, d, c) in RemoveUntil(t, user, device, until) ==>
              RemoveUntil(t, user, device, until)[EventKey(u, d, c)] == t[EventKey(u, d, c)]
  {
    PairPrefix(user, device, u, d, Be64(c));
    if u == user && d == device { KeyOrder(Pair(u, d), c, until); }
  }

  lemma QueueRows(t: Table, user: Text, device: Text) returns (counts: seq<U64>)
    requires Keyed(t)
    ensures Whole(t, Pair(user, device), counts)
    ensures var rows := Rows(t, PrefixKeys(t, Pair(user, device)));
      |counts| == |rows| && forall i :: 0 <= i < |rows| ==>
        EventKey(user, device, counts[i]) in t && rows[i].value == t[EventKey(user, device, counts[i])]
  {
    KeyedIsLog(t, user, device);
    counts := ScanIsLog(t, Pair(user, device));
    RowsOfKeys(t, PrefixKeys(t, Pair(user, device)), Pair(user, device), counts);
  }

  ghost predicate Lists(t: Table, user: Text, device: Text, counts: seq<U64>, events: seq<Bytes>) {
    |events| == |counts| && forall i :: 0 <= i < |events| ==>
      EventKey(user, device, counts[i]) in t && events[i] == t[EventKey(user, device, counts[i])]
  }

  /** All pending events of the device, in the order they were added. */
  ghost predicate IsQueue(t: Table, user: Text, device: Text, events: seq<Bytes>) {
    exists counts: seq<U64> :: Whole(t, Pair(user, device), counts) && Lists(t, user, device, counts, events)
  }

  lemma QueueIs(t: Table, user: Text, device: Text, events: seq<Bytes>)
    requires IsQueue(t, user, device, events)
    ensures exists counts: seq<U64> :: |counts| == |events|
              && (forall i, j :: 0 <= i < j < |counts| ==> counts[i] < counts[j])
              && (forall c: U64 :: c in counts <==> EventKey(user, device, c) in t)
              && (forall i :: 0 <= i < |counts| ==>
                    EventKey(user, device, counts[i]) in t && events[i] == t[EventKey(user, device, counts[i])])
  {
    var counts: seq<U64> :| Whole(t, Pair(user, device), counts) && Lists(t, user, device, counts, events);
    assert |counts| == |events|;
  }

  ghost predicate QueueReadable(readable: Bytes -> bool, t: Table, user: Text, device: Text) {
    forall c: U64 :: EventKey(user, device, c) in t ==> readable(t[EventKey(user, device, c)])
  }

  /** One unreadable value spoils the whole list. */
  method ReadAll(readable: Bytes -> bool, rows: seq<Row>) returns (r: Result<seq<Bytes>, string>)
    ensures r.Ok? <==> forall i :: 0 <= i < |rows| ==> readable(rows[i].value)
    ensures r.Ok? ==> |r.value| == |rows| && forall i :: 0 <= i < |rows| ==> r.value[i] == rows[i].value
  {
    var values := [];
    for i := 0 to |rows|
      invariant |values| == i && forall j :: 0 <= j < i ==> values[j] == rows[j].value && readable(rows[j].value)
    {
      if !readable(rows[i].value) {
        return Err("Event in todeviceid_events is invalid.");
      }
      values := values + [rows[i].value];
    }
    return Ok(values);
  }

  lemma RowsReadable(readable: Bytes -> bool, t: Table, user: Text, device: Text, rows: seq<Row>, counts: seq<U64>)
    requires Whole(t, Pair(user, device), counts) && |counts| == |rows|
    requires forall i :: 0 <= i < |rows| ==>
               EventKey(user, device, counts[i]) in t && rows[i].value == t[EventKey(user, device, counts[i])]
    ensures (forall i :: 0 <= i < |rows| ==> readable(rows[i].value)) <==> QueueReadable(readable, t, user, device)
  {
    if forall i :: 0 <= i < |rows| ==> readable(rows[i].value) {
      forall c: U64 | EventKey(user, device, c) in t ensures readable(t[EventKey(user, device, c)]) {
        assert c in counts;
        var i :| 0 <= i < |counts| && counts[i] == c;
        assert readable(rows[i].value);
      }
    }
  }

  class ToDevice {
    const todeviceid_events: KvTree
    const globals: Globals
    const readable: Bytes -> bool  // whether a stored value is an event

    ghost predicate Valid()
      reads this, todeviceid_events, globals.global
    {
      todeviceid_events != globals.global && Keyed(todeviceid_events.table)
    }

    constructor (tree: KvTree, globals: Globals, readable: Bytes -> bool)
      requires tree != globals.global && tree.table == map[]
      ensures Valid() && todeviceid_events == tree && this.globals == globals && this.readable == readable
    {
      todeviceid_events, this.globals, this.readable := tree, globals, readable;
    }

    method AddToDeviceEvent(user: Text, device: Text, value: Bytes)
      requires Valid() && CountOf(globals.global.table).Some? && CountOf(globals.global.table) != Some(U64_MAX)
      modifies todeviceid_events, globals.global
      ensures Valid() && CountOf(globals.global.table) == Some(old(CountOf(globals.global.table)).value + 1)
      ensures todeviceid_events.table
              == old(todeviceid_events.table)[EventKey(user, device, CountOf(globals.global.table).value) := value]
    {
      var count := globals.NextCount();
      todeviceid_events.Insert(user + [SEP] + device + [SEP] + Be64(count), value);
      assert user + [SEP] + device + [SEP] + Be64(count) == EventKey(user, device, count);
    }

    method GetToDeviceEvents(user: Text, device: Text) returns (r: Result<seq<Bytes>, string>)
      requires Valid()
      ensures r.Ok? <==> QueueReadable(readable, todeviceid_events.table, user, device)
      ensures r.Ok? ==> IsQueue(todeviceid_events.table, user, device, r.value)
    {
      hide Keyed, Whole, QueueReadable, EventKey;
      var rows := todeviceid_events.ScanPrefix(user + [SEP] + device + [SEP]);
      ghost var counts := QueueRows(todeviceid_events.table, user, device);
      r := ReadAll(readable, rows);
      RowsReadable(readable, todeviceid_events.table, user, device, rows, counts);
      if r.Ok? { assert Lists(todeviceid_events.table, user, device, counts, r.value); }
    }

    method RemoveToDeviceEvents(user: Text, device: Text, until: U64)
      requires Valid()
      modifies todeviceid_events
      ensures Valid()
      ensures todeviceid_events.table == RemoveUntil(old(todeviceid_events.table), user, device, until)
    {
      var prefix := user + [SEP] + device + [SEP];
      ghost var t := todeviceid_events.table;
      var rows := todeviceid_events.IterWithin(prefix, prefix + Be64(until), true);
      UpToUntil(t, user, device, until);
      RemoveRows(rows, until);
      RemoveAllIs(t, t, PrefixKeysFrom(t, prefix, Key(prefix, until), true));
    }

    /** Removes the rows one by one until a key holds a count above `until`. */
    method RemoveRows(rows: seq<Row>, until: U64)
      requires forall i :: 0 <= i < |rows| ==> |rows[i].key| >= 8 && Counter(rows[i].key) <= until
      modifies todeviceid_events
      ensures todeviceid_events.table == RemoveAll(old(todeviceid_events.table), rows)
    {
      var i := 0;
      while i < |rows| && Counter(rows[i].key) <= until
        invariant 0 <= i <= |rows|
        invariant todeviceid_events.table == RemoveAll(old(todeviceid_events.table), rows[..i])
      {
        assert rows[..i + 1][..i] == rows[..i];
        todeviceid_events.Remove(rows[i].key);
        i := i + 1;
      }
      assert rows[..i] == rows;
    }
  }

  /** The count test of the deletion loop never stops it early. */
  lemma UpToUntil(t: Table, user: Text, device: Text, until: U64)
    requires Keyed(t)
    ensures var ks := PrefixKeysFrom(t, Pair(user, device), EventKey(user, device, until), true);
      forall i :: 0 <= i < |ks| ==> |ks[i]| >= 8 && Counter(ks[i]) <= until
  {
    KeyedIsLog(t, user, device);
    var p := Pair(user, device);
    var ks := PrefixKeysFrom(t, p, EventKey(user, device, until), true);
    var cs := SeekIsCut(t, p, until, true);
    forall i | 0 <= i < |ks| ensures |ks[i]| >= 8 && Counter(ks[i]) <= until {
      CounterOfKey(p, cs[i]);
      assert cs[i] in cs;
    }
  }

  // ---------- delivery over whole runs ----------

  /** One request of the device. It has read its `next` token, may have dropped what the client
      acknowledged, and ends by reading the queue into its response. */
  datatype Sync =
    | Begun(since: nat, next: nat)
    | Acknowledged(since: nat, next: nat)
    | Answered(next: nat, events: seq<nat>)

  /** `pending` is the queue of the device, `inFlight` are positions allocated to events not yet
      in it, `tokens` the `next` of all answers. The last three are history: `delivered` events
      are in some answer, `removed` ones were acknowledged, and `overtaken` ones were in flight
      when a request with a token at or above them read the queue. */
  datatype State = State(
    counter: nat,
    inFlight: set<nat>,
    pending: set<nat>,
    syncs: map<nat, Sync>,
    tokens: set<nat>,
    delivered: set<nat>,
    removed: set<nat>,
    overtaken: set<nat>)

  datatype Event =
    | Allocate         // an event for the device takes the next position
    | Store(c: nat)    // and is then inserted
    | Tick             // the counter advances for another reason
    | Begin(id: nat, since: nat)
    | Acknowledge(id: nat)
    | Answer(id: nat)

  const Start := State(0, {}, {}, map[], {0}, {}, {}, {})

  predicate Least(c: nat, s: set<nat>) {
    c in s && forall d :: d in s ==> c <= d
  }

  lemma LeastExists(s: set<nat>)
    requires s != {}
    ensures exists c :: c in s && Least(c, s)
  {
    var x :| x in s;
    if s == {x} {
      assert Least(x, s);
    } else {
      LeastExists(s - {x});
      var y :| y in s - {x} && Least(y, s - {x});
      assert forall d :: d in s ==> d == x || d in s - {x};
      assert Least(if x <= y then x else y, s);
    }
  }

  function Ascending(s: set<nat>): (r: seq<nat>)
    ensures forall c :: c in r <==> c in s
    ensures Sorted(r)
  {
    if s == {} then [] else
      var c := LeastOf(s);
      var rest := Ascending(s - {c});
      LeastFirst(c, s, rest);
      [c] + rest
  }

  function LeastOf(s: set<nat>): (c: nat)
    requires s != {}
    ensures Least(c, s)
  {
    LeastExists(s);
    assert forall x, y :: Least(x, s) && Least(y, s) ==> x == y;
    var c :| c in s && Least(c, s);
    c
  }

  lemma LeastFirst(c: nat, s: set<nat>, rest: seq<nat>)
    requires Least(c, s) && Sorted(rest) && forall x :: x in rest <==> x in s - {c}
    ensures Sorted([c] + rest) && forall x :: x in [c] + rest <==> x in s
  {
    assert forall i :: 0 <= i < |rest| ==> rest[i] in rest;
  }

  predicate Sorted(r: seq<nat>) {
    forall i, j :: 0 <= i < j < |r| ==> r[i] < r[j]
  }

  lemma {:induction false} SortedUnique(a: seq<nat>, b: seq<nat>)
    requires Sorted(a) && Sorted(b) && forall c :: c in a <==> c in b
    ensures a == b
  {
    assert a != [] ==> a[0] in a;
    assert b != [] ==> b[0] in b;
    if a != [] && b != [] {
      assert a[0] in a && a[0] in b && b[0] in b && b[0] in a;
      assert a == [a[0]] + a[1..] && b == [b[0]] + b[1..];
      forall c ensures c in a[1..] <==> c in b[1..] {
        if c in a[1..] { assert c in a && c > a[0]; }
        if c in b[1..] { assert c in b && c > b[0]; }
      }
      SortedUnique(a[1..], b[1..]);
    }
  }

  /** What the scan of the tree lists is the queue of the model, in its order. */
  lemma ScanIsQueue(t: Table, user: Text, device: Text, counts: seq<U64>, pending: set<nat>)
    requires Whole(t, Pair(user, device), counts)
    requires forall c: U64 :: c in pending <==> EventKey(user, device, c) in t
    requires forall c :: c in pending ==> c <= U64_MAX
    ensures counts == Ascending(pending)
  {
    SortedUnique(counts, Ascending(pending));
  }

  predicate Enabled(s: State, e: Event) {
    match e
    case Allocate => true
    case Store(c) => c in s.inFlight
    case Tick => true
    case Begin(id, since) => id !in s.syncs && since in s.tokens
    case Acknowledge(id) => id in s.syncs && s.syncs[id].Begun?
    case Answer(id) => id in s.syncs && s.syncs[id].Acknowledged?
  }

  function Apply(s: State, e: Event): State
    requires Enabled(s, e)
  {
    match e
    case Allocate => s.(counter := s.counter + 1, inFlight := s.inFlight + {s.counter + 1})
    case Store(c) => s.(inFlight := s.inFlight - {c}, pending := s.pending + {c})
    case Tick => s.(counter := s.counter + 1)
    case Begin(id, since) =>
      s.(syncs := s.syncs[id := Begun(since, s.counter)])
    case Acknowledge(id) =>
      var gone := set c | c in s.pending && c <= s.syncs[id].since;
      s.(pending := s.pending - gone, removed := s.removed + gone,
         syncs := s.syncs[id := Acknowledged(s.syncs[id].since, s.syncs[id].next)])
    case Answer(id) =>
      s.(syncs := s.syncs[id := Answered(s.syncs[id].next, Ascending(s.pending))],
         tokens := s.tokens + {s.syncs[id].next},
         delivered := s.delivered + s.pending,
         overtaken := s.overtaken + set c | c in s.inFlight && c <= s.syncs[id].next)
  }

  ghost predicate Step(s: State, e: Event, t: State) {
    Enabled(s, e) && t == Apply(s, e)
  }

  ghost predicate Next(s: State, t: State) {
    exists e: Event :: Step(s, e, t)
  }

  ghost predicate Run(run: seq<State>) {
    |run| > 0 && run[0] == Start && forall k :: 0 <= k < |run| - 1 ==> Next(run[k], run[k + 1])
  }

  ghost predicate Fine(s: State, c: nat) {
    c in s.delivered || c in s.overtaken
  }

  /** Nothing handed out by `token` is still on its way, unless it was overtaken. */
  ghost predicate Settled(s: State, token: nat) {
    token <= s.counter && forall c :: c in s.inFlight && c <= token ==> c in s.overtaken
  }

  /** Positions are handed out once, and an event is in one place. */
  ghost predicate Places(s: State) {
    && (forall c :: c in s.inFlight || c in s.pending || c in s.removed || c in s.delivered ==> c <= s.counter)
    && s.inFlight !! (s.pending + s.removed + s.delivered) && s.pending !! s.removed
    && (forall id :: id in s.syncs ==> s.syncs[id].next <= s.counter)
  }

  ghost predicate Tokens(s: State) {
    && 0 in s.tokens
    && (forall id :: id in s.syncs && !s.syncs[id].Answered? ==> s.syncs[id].since in s.tokens)
    && (forall t :: t in s.tokens ==> Settled(s, t))
    && (forall c :: c in s.overtaken ==> exists token :: token in s.tokens && c <= token)
  }

  ghost predicate Deliveries(s: State) {
    && (forall c :: c in s.removed ==> Fine(s, c))
    && (forall t, c :: t in s.tokens && c in s.pending && c <= t ==> Fine(s, c))
    && (forall id :: id in s.syncs && s.syncs[id].Answered? ==>
          forall c :: c in s.syncs[id].events ==> c in s.delivered)
    && (forall c :: c in s.delivered ==> Listed(s, c))
  }

  ghost predicate Inv(s: State) {
    Places(s) && Tokens(s) && Deliveries(s)
  }

  /** Some answer of the device lists the event. */
  ghost predicate Listed(s: State, c: nat) {
    exists id :: id in s.syncs && s.syncs[id].Answered? && c in s.syncs[id].events
  }

  lemma ListedStays(s: State, e: Event, c: nat)
    requires Enabled(s, e) && Listed(s, c)
    ensures Listed(Apply(s, e), c)
  {
    var id :| id in s.syncs && s.syncs[id].Answered? && c in s.syncs[id].events;
    assert Apply(s, e).syncs[id] == s.syncs[id];
  }

  lemma PlacesKeep(s: State, e: Event)
    requires Places(s) && Enabled(s, e)
    ensures Places(Apply(s, e))
  {
    hide Ascending, Sorted;
  }

  lemma TokensKeep(s: State, e: Event)
    requires Places(s) && Tokens(s) && Enabled(s, e)
    ensures Tokens(Apply(s, e))
  {
    hide Ascending, Sorted;
    var t := Apply(s, e);
    forall k | k in t.tokens ensures Settled(t, k) {
      if k in s.tokens { assert Settled(s, k); }
    }
    forall c | c in t.overtaken ensures exists token :: token in t.tokens && c <= token {
      if c in s.overtaken {
        var token :| token in s.tokens && c <= token;
        assert token in t.tokens;
      } else {
        assert s.syncs[e.id].next in t.tokens;
      }
    }
  }

  lemma DeliveriesKeep(s: State, e: Event)
    requires Inv(s) && Enabled(s, e)
    ensures Deliveries(Apply(s, e))
  {
    hide Ascending, Sorted;
    var t := Apply(s, e);
    forall c | c in t.delivered ensures Listed(t, c) {
      if c in s.delivered {
        ListedStays(s, e, c);
      } else {
        assert e.Answer? && t.syncs[e.id].Answered? && c in t.syncs[e.id].events;
      }
    }
  }

  lemma StepKeeps(s: State, e: Event)
    requires Inv(s) && Enabled(s, e)
    ensures Inv(Apply(s, e))
  {
    PlacesKeep(s, e);
    TokensKeep(s, e);
    DeliveriesKeep(s, e);
  }

  lemma {:induction false} RunInv(run: seq<State>, k: nat)
    requires Run(run) && k < |run|
    ensures Inv(run[k])
  {
    if k > 0 {
      RunInv(run, k - 1);
      assert Next(run[k - 1], run[k]);
      var e: Event :| Step(run[k - 1], e, run[k]);
      StepKeeps(run[k - 1], e);
    }
  }

  lemma SyncStep(s: State, e: Event, t: State, id: nat)
    requires Step(s, e, t) && id in t.syncs
    ensures id !in s.syncs ==> e.Begin? && e.id == id && t.syncs[id] == Begun(e.since, s.counter)
    ensures id in s.syncs && t.syncs[id] != s.syncs[id] ==>
              && t.syncs[id].next == s.syncs[id].next
              && (t.syncs[id].Answered? ==> e == Answer(id) && t.syncs[id].events == Ascending(s.pending))
    ensures id in s.syncs && s.syncs[id].Answered? ==> t.syncs[id] == s.syncs[id]
  {
    hide Ascending, Sorted;
  }

  /** The token of a request is the position at which it began. */
  lemma {:induction false} TokenIsBegin(run: seq<State>, k: nat, id: nat) returns (b: nat, since: nat)
    requires Run(run) && k < |run| && id in run[k].syncs
    ensures b < k && Step(run[b], Begin(id, since), run[b + 1]) && run[k].syncs[id].next == run[b].counter
    decreases k
  {
    hide Apply, Enabled, Ascending;
    var n := k - 1;
    assert Next(run[n], run[k]);
    var e: Event :| Step(run[n], e, run[k]);
    SyncStep(run[n], e, run[k], id);
    if id in run[n].syncs {
      b, since := TokenIsBegin(run, n, id);
    } else {
      b, since := n, e.since;
    }
  }

  /** An answer lists, in ascending order, exactly what was waiting when it was given. */
  lemma {:induction false} AnswerListsQueue(run: seq<State>, k: nat, id: nat) returns (j: nat)
    requires Run(run) && k < |run| && id in run[k].syncs && run[k].syncs[id].Answered?
    ensures j < k && Step(run[j], Answer(id), run[j + 1])
    ensures var events := run[k].syncs[id].events;
      && (forall c :: c in events <==> c in run[j].pending)
      && (forall x, y :: 0 <= x < y < |events| ==> events[x] < events[y])
    decreases k
  {
    hide Apply, Enabled;
    var n := k - 1;
    assert Next(run[n], run[k]);
    var e: Event :| Step(run[n], e, run[k]);
    SyncStep(run[n], e, run[k], id);
    if id in run[n].syncs && run[n].syncs[id].Answered? {
      j := AnswerListsQueue(run, n, id);
    } else {
      j := n;
    }
  }

  /** In every run, also with additions in the middle of a request and several requests at once,
      an acknowledged event has been in an answer, unless it was in flight when a request with a
      token at or above it read the queue. */
  lemma RemovedWasDelivered(run: seq<State>, k: nat, c: nat)
    requires Run(run) && k < |run| && c in run[k].removed && c !in run[k].overtaken
    ensures Listed(run[k], c)
  {
    RunInv(run, k);
  }

  /** If an event is stored in one step with taking its position, nothing is ever overtaken. */
  ghost predicate Atomic(run: seq<State>) {
    forall k :: 0 <= k < |run| - 1 ==>
      run[k].inFlight != {} ==> exists c :: Step(run[k], Store(c), run[k + 1])
  }

  lemma {:induction false} AtomicNeverOvertakes(run: seq<State>, k: nat)
    requires Run(run) && Atomic(run) && k < |run|
    ensures run[k].overtaken == {} && (forall a, b :: a in run[k].inFlight && b in run[k].inFlight ==> a == b)
  {
    if k > 0 {
      AtomicNeverOvertakes(run, k - 1);
      assert Next(run[k - 1], run[k]);
    }
  }

  lemma AtomicRunsLoseNothing(run: seq<State>, k: nat, c: nat)
    requires Run(run) && Atomic(run) && k < |run| && c in run[k].removed
    ensures Listed(run[k], c)
  {
    AtomicNeverOvertakes(run, k);
    RemovedWasDelivered(run, k, c);
  }

  /** The state after taking the steps `es` one after the other. */
  ghost predicate Leads(s: State, es: seq<Event>, t: State)
    decreases |es|
  {
    if es == [] then s == t else Enabled(s, es[0]) && Leads(Apply(s, es[0]), es[1..], t)
  }

  /** A request begun in `s`, then the event stored, then the acknowledgement of the next one. */
  function LosingRun(s: State, c: nat, since: nat, a: nat, b: nat): seq<Event> {
    [Begin(a, since), Acknowledge(a), Answer(a), Store(c), Begin(b, s.counter), Acknowledge(b)]
  }

  lemma FirstAnswerMisses(s: State, c: nat, since: nat, a: nat) returns (t: State)
    requires Inv(s) && c in s.inFlight && since in s.tokens && a !in s.syncs
    ensures forall rest, u :: Leads(t, rest, u) ==>
              Leads(s, [Begin(a, since), Acknowledge(a), Answer(a), Store(c)] + rest, u)
    ensures s.counter in t.tokens && t.counter == s.counter && c in t.pending && c <= t.counter
    ensures t.syncs.Keys == s.syncs.Keys + {a} && t.syncs[a].Answered? && c !in t.syncs[a].events
    ensures forall id :: id in s.syncs ==> t.syncs[id] == s.syncs[id]
  {
    var s1 := Apply(s, Begin(a, since));
    var s2 := Apply(s1, Acknowledge(a));
    var s3 := Apply(s2, Answer(a));
    t := Apply(s3, Store(c));
    forall rest, u | Leads(t, rest, u)
      ensures Leads(s, [Begin(a, since), Acknowledge(a), Answer(a), Store(c)] + rest, u)
    {
      LeadsCons(s3, Store(c), rest, u);
      LeadsCons(s2, Answer(a), [Store(c)] + rest, u);
      LeadsCons(s1, Acknowledge(a), [Answer(a)] + ([Store(c)] + rest), u);
      LeadsCons(s, Begin(a, since), [Acknowledge(a)] + ([Answer(a)] + ([Store(c)] + rest)), u);
      assert [Begin(a, since)] + ([Acknowledge(a)] + ([Answer(a)] + ([Store(c)] + rest)))
          == [Begin(a, since), Acknowledge(a), Answer(a), Store(c)] + rest;
    }
  }

  lemma LeadsCons(s: State, e: Event, es: seq<Event>, t: State)
    requires Enabled(s, e) && Leads(Apply(s, e), es, t)
    ensures Leads(s, [e] + es, t)
  {
    assert ([e] + es)[1..] == es;
  }

  /** The event can still be removed without ever having been in an answer. */
  ghost predicate CanBeLost(s: State, c: nat) {
    exists es: seq<Event>, t: State :: Leads(s, es, t) && c in t.removed && !Listed(t, c)
  }

  /** Waiting, unlisted, and above every token that could acknowledge it. */
  ghost predicate Safe(s: State, c: nat) {
    && c in s.pending && c !in s.removed
    && (forall k :: k in s.tokens ==> k < c)
    && (forall id :: id in s.syncs && !s.syncs[id].Answered? ==> s.syncs[id].since < c)
  }

  lemma SafeStep(s: State, e: Event, c: nat)
    requires Enabled(s, e) && Safe(s, c)
    ensures Safe(Apply(s, e), c) || Listed(Apply(s, e), c)
  {
    var t := Apply(s, e);
    if e.Answer? { assert t.syncs[e.id].Answered? && c in t.syncs[e.id].events; }
  }

  lemma {:induction false} SafeIsListedFirst(s: State, es: seq<Event>, t: State, c: nat)
    requires Leads(s, es, t) && (Safe(s, c) || Listed(s, c))
    ensures Safe(t, c) || Listed(t, c)
    decreases |es|
  {
    if es != [] {
      if Listed(s, c) { ListedStays(s, es[0], c); } else { SafeStep(s, es[0], c); }
      SafeIsListedFirst(Apply(s, es[0]), es[1..], t, c);
    }
  }

  lemma {:induction false} UnusedId(ids: set<nat>) returns (id: nat)
    ensures id !in ids && forall x :: x in ids ==> x < id
    decreases ids
  {
    if ids == {} {
      id := 0;
    } else {
      var x :| x in ids;
      var y := UnusedId(ids - {x});
      id := if x < y then y else x + 1;
      assert forall z :: z in ids ==> z == x || z in ids - {x};
    }
  }

  lemma AcknowledgedUnlisted(s: State, c: nat, token: nat)
    requires Inv(s) && c in s.pending && !Listed(s, c) && token in s.tokens && c <= token
    ensures CanBeLost(s, c)
  {
    var id := UnusedId(s.syncs.Keys);
    var s1 := Apply(s, Begin(id, token));
    var s2 := Apply(s1, Acknowledge(id));
    LeadsCons(s1, Acknowledge(id), [], s2);
    LeadsCons(s, Begin(id, token), [Acknowledge(id)] + [], s2);
    assert !Listed(s2, c);
  }

  /** In every reachable state, a waiting event that no answer lists can be lost if and only if some
      answer carried a token at or above it. */
  lemma WaitingCanBeLostIff(run: seq<State>, k: nat, c: nat)
    requires Run(run) && k < |run| && c in run[k].pending && !Listed(run[k], c)
    ensures CanBeLost(run[k], c) <==> exists token :: token in run[k].tokens && c <= token
  {
    var s := run[k];
    RunInv(run, k);
    if token :| token in s.tokens && c <= token {
      AcknowledgedUnlisted(s, c, token);
    } else if CanBeLost(s, c) {
      var es: seq<Event>, t: State :| Leads(s, es, t) && c in t.removed && !Listed(t, c);
      assert Safe(s, c);
      SafeIsListedFirst(s, es, t, c);
    }
  }

  /** And those are the events that were overtaken. */
  lemma OvertakenIff(run: seq<State>, k: nat, c: nat)
    requires Run(run) && k < |run| && c in run[k].pending && !Listed(run[k], c)
    ensures c in run[k].overtaken <==> exists token :: token in run[k].tokens && c <= token
  {
    RunInv(run, k);
  }

  /** An event in flight is lost if a whole request goes by before it is stored and the next request
      acknowledges it. */
  lemma LosingRunLoses(s: State, c: nat, since: nat, a: nat, b: nat)
    requires Inv(s) && c in s.inFlight
    requires since in s.tokens && a != b && a !in s.syncs && b !in s.syncs
    ensures exists t: State :: Leads(s, LosingRun(s, c, since, a, b), t) && c in t.removed && !Listed(t, c)
  {
    var s4 := FirstAnswerMisses(s, c, since, a);
    var s5 := Apply(s4, Begin(b, s.counter));
    var s6 := Apply(s5, Acknowledge(b));
    LeadsCons(s5, Acknowledge(b), [], s6);
    LeadsCons(s4, Begin(b, s.counter), [Acknowledge(b)] + [], s6);
    assert LosingRun(s, c, since, a, b)
        == [Begin(a, since), Acknowledge(a), Answer(a), Store(c)] + ([Begin(b, s.counter)] + ([Acknowledge(b)] + []));
  }

  /** In every reachable state, every event still in flight can be lost. */
  lemma InFlightCanBeLost(run: seq<State>, k: nat, c: nat)
    requires Run(run) && k < |run| && c in run[k].inFlight
    ensures CanBeLost(run[k], c)
  {
    RunInv(run, k);
    var a := UnusedId(run[k].syncs.Keys);
    LosingRunLoses(run[k], c, 0, a, a + 1);
    var t: State :| Leads(run[k], LosingRun(run[k], c, 0, a, a + 1), t) && c in t.removed && !Listed(t, c);
  }
}
