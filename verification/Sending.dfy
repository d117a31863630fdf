/** The queue of outgoing events: events wait in one tree, are moved to a second one while they are
    being sent, and every key can be parsed back into destination and event. */
module Sending {
  import opened Bytes
  import opened KvTree
  import opened Wrappers

  const PLUS: Byte := 0x2b
  const DOLLAR: Byte := 0x24

  datatype Kind =
    | Appservice(id: Text)
    | Push(user: Text, pushkey: Text)
    | Normal(server: Text)

  /** A stored event is named by its id; anything else is carried along. */
  datatype SendingEvent = Pdu(id: Bytes) | Edu(content: Bytes)

  /** What the identifier parsers accept; server names never start with a kind marker. */
  datatype Grammar = Grammar(isUtf8: Text -> bool, isServer: Text -> bool, isUser: Text -> bool)

  predicate Marked(t: Text) {
    t != [] && (t[0] == PLUS || t[0] == DOLLAR)
  }

  ghost predicate Usual(g: Grammar) {
    forall t: Text :: g.isServer(t) ==> !Marked(t)
  }

  predicate WellFormed(g: Grammar, kind: Kind) {
    match kind
    case Appservice(id) => g.isUtf8(id)
    case Push(user, pushkey) => g.isUtf8(user) && g.isUser(user) && g.isUtf8(pushkey)
    case Normal(server) => g.isUtf8(server) && g.isServer(server)
  }

  function Prefix(kind: Kind): Bytes {
    match kind
    case Appservice(id) => [PLUS] + id + [SEP]
    case Push(user, pushkey) => [DOLLAR] + user + [SEP] + pushkey + [SEP]
    case Normal(server) => server + [SEP]
  }

  function QueueKey(kind: Kind, event: SendingEvent, count: U64): Bytes {
    Prefix(kind) + if event.Pdu? then event.id else Be64(count)
  }

  function QueueValue(event: SendingEvent): Bytes {
    if event.Edu? then event.content else []
  }

  function QueueRow(kind: Kind, event: SendingEvent, count: U64): Row {
    Row(QueueKey(kind, event, count), QueueValue(event))
  }

  function EventOf(suffix: Bytes, value: Bytes): SendingEvent {
    if value == [] then Pdu(suffix) else Edu(value)
  }

  function Parse(g: Grammar, key: Bytes, value: Bytes): (r: Result<(Kind, SendingEvent), string>) {
    if [PLUS] <= key then
      var (server, event) := SplitOnce(key[1..]);
      if event.None? then Err("Invalid bytes in servercurrentpdus.")
      else if !g.isUtf8(server) then Err("Invalid server bytes in server_currenttransaction")
      else Ok((Appservice(server), EventOf(event.value, value)))
    else if [DOLLAR] <= key then
      var (user, rest) := SplitOnce(key[1..]);
      if !g.isUtf8(user) then Err("Invalid user string in servercurrentevent")
      else if !g.isUser(user) then Err("Invalid user id in servercurrentevent")
      else if rest.None? then Err("Invalid bytes in servercurrentpdus.")
      else
        var (pushkey, event) := SplitOnce(rest.value);
        if !g.isUtf8(pushkey) then Err("Invalid pushkey in servercurrentevent")
        else if event.None? then Err("Invalid bytes in servercurrentpdus.")
        else Ok((Push(user, pushkey), EventOf(event.value, value)))
    else
      var (server, event) := SplitOnce(key);
      if event.None? then Err("Invalid bytes in servercurrentpdus.")
      else if !g.isUtf8(server) then Err("Invalid server bytes in server_currenttransaction")
      else if !g.isServer(server) then Err("Invalid server string in server_currenttransaction")
      else Ok((Normal(server), EventOf(event.value, value)))
  }

  /** Parsing any key of a destination gives back the destination, whatever bytes follow it,
      separators included. */
  lemma ParseKey(g: Grammar, kind: Kind, suffix: Bytes, value: Bytes)
    requires Usual(g) && WellFormed(g, kind)
    ensures Parse(g, Prefix(kind) + suffix, value) == Ok((kind, EventOf(suffix, value)))
  {
    match kind
    case Appservice(id) => ParseAppservice(g, id, suffix, value);
    case Push(user, pushkey) => ParsePush(g, user, pushkey, suffix, value);
    case Normal(server) => ParseNormal(g, server, suffix, value);
  }

  lemma ParseAppservice(g: Grammar, id: Text, suffix: Bytes, value: Bytes)
    requires WellFormed(g, Appservice(id))
    ensures Parse(g, Prefix(Appservice(id)) + suffix, value) == Ok((Appservice(id), EventOf(suffix, value)))
  {
    var key := Prefix(Appservice(id)) + suffix;
    assert key[0] == PLUS && key[1..] == id + [SEP] + suffix;
    SplitOnceJoin(id, suffix);
  }

  lemma ParsePush(g: Grammar, user: Text, pushkey: Text, suffix: Bytes, value: Bytes)
    requires WellFormed(g, Push(user, pushkey))
    ensures Parse(g, Prefix(Push(user, pushkey)) + suffix, value) == Ok((Push(user, pushkey), EventOf(suffix, value)))
  {
    var key := Prefix(Push(user, pushkey)) + suffix;
    var rest := pushkey + [SEP] + suffix;
    assert key[0] == DOLLAR && key[1..] == user + [SEP] + rest;
    SplitOnceJoin(user, rest);
    SplitOnceJoin(pushkey, suffix);
    assert SplitOnce(key[1..]) == (user, Some(rest)) && SplitOnce(rest) == (pushkey, Some(suffix));
  }

  lemma ParseNormal(g: Grammar, server: Text, suffix: Bytes, value: Bytes)
    requires Usual(g) && WellFormed(g, Normal(server))
    ensures Parse(g, Prefix(Normal(server)) + suffix, value) == Ok((Normal(server), EventOf(suffix, value)))
  {
    var key := Prefix(Normal(server)) + suffix;
    assert !Marked(server);
    assert key == server + [SEP] + suffix;
    assert key[0] == (if server == [] then SEP else server[0]);
    SplitOnceJoin(server, suffix);
  }

  /** Everything queued is recovered from its row, except an event carried with no content, which
      comes back as a stored event named by the count. */
  lemma ParseQueued(g: Grammar, kind: Kind, event: SendingEvent, count: U64)
    requires Usual(g) && WellFormed(g, kind)
    ensures Parse(g, QueueKey(kind, event, count), QueueValue(event)) == Ok((kind, event)) <==> event != Edu([])
    ensures event == Edu([]) ==>
              Parse(g, QueueKey(kind, event, count), QueueValue(event)) == Ok((kind, Pdu(Be64(count))))
  {
    ParseKey(g, kind, if event.Pdu? then event.id else Be64(count), QueueValue(event));
  }

  /** Writing a parsed event again writes the same value. */
  lemma ParseKeepsContent(g: Grammar, key: Bytes, value: Bytes)
    requires Parse(g, key, value).Ok?
    ensures QueueValue(Parse(g, key, value).value.1) == value
  {
  }

  /** Only keys of the same destination start with its prefix. */
  lemma PrefixSelects(g: Grammar, kind: Kind, other: Kind, suffix: Bytes)
    requires Usual(g) && WellFormed(g, kind) && WellFormed(g, other)
    ensures Prefix(kind) <= Prefix(other) + suffix <==> kind == other
  {
    var key := Prefix(other) + suffix;
    if Prefix(kind) <= key {
      var rest := key[|Prefix(kind)|..];
      assert key == Prefix(kind) + rest;
      ParseKey(g, kind, rest, []);
      ParseKey(g, other, suffix, []);
    }
  }

  /** One key never stands for two different rows: stored events are named by 16 or 24 bytes, and
      no two carried events share a count. */
  lemma SameKeySameRow(g: Grammar, k: Kind, e: SendingEvent, c: U64, l: Kind, f: SendingEvent, d: U64)
    requires Usual(g) && WellFormed(g, k) && WellFormed(g, l)
    requires e.Pdu? ==> |e.id| != 8
    requires f.Pdu? ==> |f.id| != 8
    requires QueueKey(k, e, c) == QueueKey(l, f, d)
    ensures k == l && (if e.Pdu? then e == f else f.Edu? && c == d)
  {
    var x, y := if e.Pdu? then e.id else Be64(c), if f.Pdu? then f.id else Be64(d);
    ParseKey(g, k, x, []);
    ParseKey(g, l, y, []);
    if e.Edu? { Be64Injective(c, d); }
  }

  // ---------- the store ----------

  class Sending {
    const servernameevent_data: KvTree     // waiting
    const servercurrentevent_data: KvTree  // being sent
    const globals: Globals

    ghost predicate Distinct() {
      && servernameevent_data != servercurrentevent_data
      && globals.global != servernameevent_data && globals.global != servercurrentevent_data
    }

    constructor (queued: KvTree, active: KvTree, globals: Globals)
      requires queued != active && globals.global != queued && globals.global != active
      ensures Distinct() && servernameevent_data == queued && servercurrentevent_data == active
      ensures this.globals == globals
    {
      servernameevent_data, servercurrentevent_data, this.globals := queued, active, globals;
    }

    /** One row per request; each carried event takes a count of its own. */
    method QueueRequests(requests: seq<(Kind, SendingEvent)>) returns (keys: seq<Bytes>)
      requires Distinct() && CountOf(globals.global.table).Some?
      requires CountOf(globals.global.table).value + |requests| < U64_MAX
      modifies servernameevent_data, globals.global
      ensures var batch := Batch(QueueRow, old(CountOf(globals.global.table)).value, requests);
        && servernameevent_data.table == InsertAll(old(servernameevent_data.table), batch)
        && |keys| == |batch| && forall i :: 0 <= i < |keys| ==> keys[i] == batch[i].key
      ensures CountOf(globals.global.table) == Some(old(CountOf(globals.global.table)).value + Edus(requests))
      ensures |keys| == |requests|
      ensures forall i :: 0 <= i < |keys| && (forall j :: i < j < |keys| ==> keys[j] != keys[i]) ==>
                Lookup(servernameevent_data.table, keys[i])
                == Some(if requests[i].1.Edu? then requests[i].1.content else [])
      ensures forall k :: k !in keys ==>
                Lookup(servernameevent_data.table, k) == Lookup(old(servernameevent_data.table), k)
    {
      hide Batch, InsertAll, Lookup, CountOf, Edus, QueueRow;
      ghost var start := CountOf(globals.global.table).value;
      var batch := BuildBatch(requests);
      keys := seq(|batch|, i requires 0 <= i < |batch| => batch[i].key);
      servernameevent_data.InsertBatch(batch);
      QueuedRows(old(servernameevent_data.table), start, requests, keys);
    }

    method BuildBatch(requests: seq<(Kind, SendingEvent)>) returns (batch: seq<Row>)
      requires CountOf(globals.global.table).Some? && CountOf(globals.global.table).value + |requests| < U64_MAX
      modifies globals.global
      ensures batch == Batch(QueueRow, old(CountOf(globals.global.table)).value, requests)
      ensures CountOf(globals.global.table) == Some(old(CountOf(globals.global.table)).value + Edus(requests))
    {
      hide *;
      ghost var start := CountOf(globals.global.table).value;
      ghost var all := Batch(QueueRow, start, requests);
      batch := [];
      for i := 0 to |requests|
        invariant CountOf(globals.global.table) == Some(start + Edus(requests[..i]))
        invariant |batch| == i && forall j :: 0 <= j < i ==> batch[j] == all[j]
      {
        BatchAt(QueueRow, start, requests, i);
        var row := NextRow(requests[i].0, requests[i].1);
        batch := batch + [row];
      }
      assert requests[..|requests|] == requests;
    }

    method NextRow(kind: Kind, event: SendingEvent) returns (row: Row)
      requires CountOf(globals.global.table).Some? && CountOf(globals.global.table) != Some(U64_MAX)
      modifies globals.global
      ensures row == QueueRow(kind, event, old(CountOf(globals.global.table)).value + 1)
      ensures CountOf(globals.global.table)
              == Some(old(CountOf(globals.global.table)).value + if event.Edu? then 1 else 0)
    {
      var key := Prefix(kind);
      if event.Pdu? {
        key := key + event.id;
      } else {
        var count := globals.NextCount();
        key := key + Be64(count);
      }
      row := Row(key, if event.Edu? then event.content else []);
    }

    method MarkAsActive(events: seq<(SendingEvent, Bytes)>)
      requires Distinct()
      modifies servercurrentevent_data, servernameevent_data
      ensures servercurrentevent_data.table == InsertAll(old(servercurrentevent_data.table), MarkRows(events))
      ensures servernameevent_data.table == RemoveAll(old(servernameevent_data.table), MarkRows(events))
      ensures forall i :: 0 <= i < |events| && (forall j :: i < j < |events| ==> events[j].1 != events[i].1) ==>
                Lookup(servercurrentevent_data.table, events[i].1)
                == Some(if events[i].0.Edu? then events[i].0.content else [])
      ensures forall i :: 0 <= i < |events| ==> events[i].1 !in servernameevent_data.table
      ensures forall k :: (forall i :: 0 <= i < |events| ==> events[i].1 != k) ==>
                && Lookup(servercurrentevent_data.table, k) == Lookup(old(servercurrentevent_data.table), k)
                && Lookup(servernameevent_data.table, k) == Lookup(old(servernameevent_data.table), k)
    {
      for i := 0 to |events|
        invariant servercurrentevent_data.table == InsertAll(old(servercurrentevent_data.table), MarkRows(events[..i]))
        invariant servernameevent_data.table == RemoveAll(old(servernameevent_data.table), MarkRows(events[..i]))
      {
        var (e, key) := events[i];
        assert MarkRows(events[..i + 1])[..i] == MarkRows(events[..i]);
        servercurrentevent_data.Insert(key, QueueValue(e));
        servernameevent_data.Remove(key);
      }
      assert events[..|events|] == events;
      MarkedRows(old(servercurrentevent_data.table), old(servernameevent_data.table), events);
    }

    method DeleteActiveRequest(key: Bytes)
      modifies servercurrentevent_data
      ensures servercurrentevent_data.table == old(servercurrentevent_data.table) - {key}
    {
      servercurrentevent_data.Remove(key);
    }

    method DeleteAllActiveRequestsFor(kind: Kind)
      modifies servercurrentevent_data
      ensures servercurrentevent_data.table == Without(old(servercurrentevent_data.table), kind)
    {
      DeletePrefix(servercurrentevent_data, Prefix(kind));
    }

    method DeleteAllRequestsFor(kind: Kind)
      requires Distinct()
      modifies servercurrentevent_data, servernameevent_data
      ensures servercurrentevent_data.table == Without(old(servercurrentevent_data.table), kind)
      ensures servernameevent_data.table == Without(old(servernameevent_data.table), kind)
    {
      DeletePrefix(servercurrentevent_data, Prefix(kind));
      DeletePrefix(servernameevent_data, Prefix(kind));
    }
  }

  function Edus(requests: seq<(Kind, SendingEvent)>): (n: nat)
    ensures n <= |requests|
  {
    if requests == [] then 0 else (if requests[0].1.Edu? then 1 else 0) + Edus(requests[1..])
  }

  /** The rows of a batch queued when the counter stands at `count`; the row layout is a parameter. */
  function Batch(row: (Kind, SendingEvent, U64) -> Row, count: nat, requests: seq<(Kind, SendingEvent)>)
    : (rows: seq<Row>)
    requires count + |requests| < U64_MAX
    ensures |rows| == |requests|
    decreases |requests|
  {
    if requests == [] then [] else
      [row(requests[0].0, requests[0].1, count + 1)]
      + Batch(row, count + (if requests[0].1.Edu? then 1 else 0), requests[1..])
  }

  /** The `i`-th row carries the count reached by the carried events before it. */
  lemma {:induction false} BatchAt(row: (Kind, SendingEvent, U64) -> Row, count: nat,
                                   requests: seq<(Kind, SendingEvent)>, i: nat)
    requires count + |requests| < U64_MAX && i < |requests|
    ensures Edus(requests[..i]) <= i
    ensures Batch(row, count, requests)[i] == row(requests[i].0, requests[i].1, count + Edus(requests[..i]) + 1)
    ensures Edus(requests[..i + 1]) == Edus(requests[..i]) + if requests[i].1.Edu? then 1 else 0
    decreases i
  {
    if i == 0 {
      assert requests[..1][1..] == [];
    } else {
      assert requests[..i][1..] == requests[1..][..i - 1] && requests[..i + 1][1..] == requests[1..][..i];
      BatchAt(row, count + (if requests[0].1.Edu? then 1 else 0), requests[1..], i - 1);
    }
  }

  /** A queued event waits under its key with its content; nothing else has changed. */
  lemma QueuedRows(t: Table, count: nat, requests: seq<(Kind, SendingEvent)>, keys: seq<Bytes>)
    requires count + |requests| < U64_MAX && |keys| == |requests|
    requires forall i :: 0 <= i < |keys| ==> keys[i] == Batch(QueueRow, count, requests)[i].key
    ensures var t' := InsertAll(t, Batch(QueueRow, count, requests));
      && (forall i :: 0 <= i < |keys| && (forall j :: i < j < |keys| ==> keys[j] != keys[i]) ==>
            Lookup(t', keys[i]) == Some(if requests[i].1.Edu? then requests[i].1.content else []))
      && (forall k :: k !in keys ==> Lookup(t', k) == Lookup(t, k))
  {
    hide Batch, InsertAll, Lookup;
    var batch := Batch(QueueRow, count, requests);
    forall i | 0 <= i < |keys| && (forall j :: i < j < |keys| ==> keys[j] != keys[i])
      ensures Lookup(InsertAll(t, batch), keys[i]) == Some(if requests[i].1.Edu? then requests[i].1.content else [])
    {
      BatchAt(QueueRow, count, requests, i);
      InsertAllLast(t, batch, i);
    }
    forall k | k !in keys ensures Lookup(InsertAll(t, batch), k) == Lookup(t, k) {
      InsertAllElsewhere(t, batch, k);
    }
  }

  function MarkRows(events: seq<(SendingEvent, Bytes)>): (rows: seq<Row>)
    ensures |rows| == |events|
  {
    seq(|events|, i requires 0 <= i < |events| => Row(events[i].1, QueueValue(events[i].0)))
  }

  /** A marked event is active with its content and no longer waiting; nothing else has changed. */
  lemma MarkedRows(active: Table, queued: Table, events: seq<(SendingEvent, Bytes)>)
    ensures var active', queued' := InsertAll(active, MarkRows(events)), RemoveAll(queued, MarkRows(events));
      && (forall i :: 0 <= i < |events| && (forall j :: i < j < |events| ==> events[j].1 != events[i].1) ==>
            Lookup(active', events[i].1) == Some(if events[i].0.Edu? then events[i].0.content else []))
      && (forall i :: 0 <= i < |events| ==> events[i].1 !in queued')
      && (forall k :: (forall i :: 0 <= i < |events| ==> events[i].1 != k) ==>
            Lookup(active', k) == Lookup(active, k) && Lookup(queued', k) == Lookup(queued, k))
  {
    var rows := MarkRows(events);
    assert forall i :: 0 <= i < |events| ==> rows[i].key == events[i].1;
    var active', queued' := InsertAll(active, rows), RemoveAll(queued, rows);
    forall i | 0 <= i < |events| && (forall j :: i < j < |events| ==> events[j].1 != events[i].1)
      ensures Lookup(active', events[i].1) == Some(if events[i].0.Edu? then events[i].0.content else [])
    {
      InsertAllLast(active, rows, i);
    }
    forall i | 0 <= i < |events| ensures events[i].1 !in queued' {
      assert rows[i].key == events[i].1;
      RemoveAllAt(queued, rows, events[i].1);
    }
    forall k | forall i :: 0 <= i < |events| ==> events[i].1 != k
      ensures Lookup(active', k) == Lookup(active, k) && Lookup(queued', k) == Lookup(queued, k)
    {
      InsertAllElsewhere(active, rows, k);
      RemoveAllAt(queued, rows, k);
    }
  }

  /** Each row of a batch parses back into its request, except for an event carried with no content. */
  lemma BatchParses(g: Grammar, count: nat, requests: seq<(Kind, SendingEvent)>, i: nat)
    requires count + |requests| < U64_MAX && i < |requests| && Usual(g) && WellFormed(g, requests[i].0)
    ensures var row := Batch(QueueRow, count, requests)[i];
      Parse(g, row.key, row.value) == Ok(requests[i]) <==> requests[i].1 != Edu([])
  {
    hide Parse, Batch;
    BatchAt(QueueRow, count, requests, i);
    ParseQueued(g, requests[i].0, requests[i].1, count + Edus(requests[..i]) + 1);
    assert requests[i] == (requests[i].0, requests[i].1);
  }

  function Without(t: Table, kind: Kind): Table {
    t - set k | k in t && Prefix(kind) <= k
  }

  method DeletePrefix(tree: KvTree, prefix: Bytes)
    modifies tree
    ensures tree.table == old(tree.table) - set k | k in old(tree.table) && prefix <= k
  {
    ghost var t := tree.table;
    var rows := tree.ScanPrefix(prefix);
    for i := 0 to |rows|
      invariant tree.table == RemoveAll(t, rows[..i])
    {
      assert rows[..i + 1][..i] == rows[..i];
      tree.Remove(rows[i].key);
    }
    assert rows[..|rows|] == rows;
    RemoveAllIs(t, t, PrefixKeys(t, prefix));
    assert (set k | k in PrefixKeys(t, prefix)) == set k | k in t && prefix <= k;
  }

  /** Deleting a destination's rows keeps every row of every other destination. */
  lemma DeletionIsExact(g: Grammar, t: Table, kind: Kind, other: Kind, event: SendingEvent, count: U64)
    requires Usual(g) && WellFormed(g, kind) && WellFormed(g, other)
    ensures var k := QueueKey(other, event, count);
      && (k in Without(t, kind) <==> k in t && kind != other)
      && (k in Without(t, kind) ==> Without(t, kind)[k] == t[k])
  {
    PrefixSelects(g, kind, other, if event.Pdu? then event.id else Be64(count));
  }

  // ---------- whole runs, one tree operation at a time ----------

  /** `marking` is the key the sender has made active and not yet taken off the queue. The rest is
      history: `known` is what was ever queued under a key, `owed` are the queued events not
      deleted since, `disturbed` the keys that a cleanup took off the active tree in the middle of
      being marked and that were neither marked again nor queued again after that mark. */
  datatype State = State(
    queued: Table,
    active: Table,
    marking: Option<Bytes>,
    known: Table,
    owed: set<Bytes>,
    disturbed: set<Bytes>)

  datatype Event =
    | Queue(key: Bytes, value: Bytes)
    | MarkInsert(key: Bytes, event: SendingEvent)
    | MarkRemove
    | Delete(key: Bytes)
    | CleanupActive(key: Bytes)
    | CleanupQueued(key: Bytes)

  const Start := State(map[], map[], None, map[], {}, {})

  /** Marking and deleting are done by the one sending task; queueing and cleanups by any other. */
  predicate Enabled(s: State, e: Event) {
    match e
    case Queue(key, value) => key in s.known ==> s.known[key] == value
    case MarkInsert(key, event) => s.marking.None? && key in s.known && QueueValue(event) == s.known[key]
    case MarkRemove => s.marking.Some?
    case Delete(_) => s.marking.None?
    case CleanupActive(_) => true
    case CleanupQueued(_) => true
  }

  function Apply(s: State, e: Event): State
    requires Enabled(s, e)
  {
    match e
    case Queue(key, value) =>
      s.(queued := s.queued[key := value], known := s.known[key := value], owed := s.owed + {key},
         disturbed := if s.marking == Some(key) then s.disturbed else s.disturbed - {key})
    case MarkInsert(key, event) =>
      s.(active := s.active[key := QueueValue(event)], marking := Some(key), disturbed := s.disturbed - {key})
    case MarkRemove => s.(queued := s.queued - {s.marking.value}, marking := None)
    case Delete(key) =>
      s.(active := s.active - {key}, owed := if key in s.queued then s.owed else s.owed - {key})
    case CleanupActive(key) =>
      s.(active := s.active - {key}, owed := if key in s.queued then s.owed else s.owed - {key},
         disturbed := if s.marking == Some(key) then s.disturbed + {key} else s.disturbed)
    case CleanupQueued(key) =>
      s.(queued := s.queued - {key}, owed := if key in s.active then s.owed else s.owed - {key})
  }

  ghost predicate Step(s: State, e: Event, t: State) {
    Enabled(s, e) && t == Apply(s, e)
  }

  ghost predicate Next(s: State, t: State) {
    exists e: Event :: Step(s, e, t)
  }

  ghost predicate Run(run: seq<State>) {
    |run| > 0 && run[0] == Start && forall k :: 0 <= k < |run| - 1 ==> Next(run[k], run[k + 1])
  }

  /** Present in one of the trees, with the content it was queued with. */
  ghost predicate Held(s: State, key: Bytes) {
    key in s.known
    && (Lookup(s.queued, key) == Some(s.known[key]) || Lookup(s.active, key) == Some(s.known[key]))
  }

  /** Taken off the queue by a mark whose active row a cleanup had removed. */
  predicate Lost(s: State, key: Bytes) {
    key in s.disturbed && s.marking != Some(key)
  }

  ghost predicate Inv(s: State) {
    && (forall k :: k in s.queued ==> k in s.known && s.queued[k] == s.known[k])
    && (forall k :: k in s.active ==> k in s.known && s.active[k] == s.known[k])
    && (s.marking.Some? ==> s.marking.value in s.active || s.marking.value in s.disturbed)
    && (forall k :: k in s.disturbed ==> k !in s.active && (k in s.queued ==> s.marking == Some(k)))
    && (forall k :: k in s.owed ==> Held(s, k) || Lost(s, k))
  }

  lemma StepKeeps(s: State, e: Event)
    requires Inv(s) && Enabled(s, e)
    ensures Inv(Apply(s, e))
  {
    var t := Apply(s, e);
    forall k | k in t.owed ensures Held(t, k) || Lost(t, k) {
      if k in s.owed { assert Held(s, k) || Lost(s, k); }
    }
  }

  lemma {:induction false} RunInv(run: seq<State>, k: nat)
    requires Run(run) && k < |run|
    ensures Inv(run[k])
  {
    if k > 0 {
      RunInv(run, k - 1);
      assert Next(run[k - 1], run[k]);
      var e: Event :| Step(run[k - 1], e, run[k]);
      StepKeeps(run[k - 1], e);
    }
  }

  lemma Extend(run: seq<State>, e: Event, t: State)
    requires Run(run) && Step(run[|run| - 1], e, t)
    ensures Run(run + [t])
  {
    var more := run + [t];
    forall k | 0 <= k < |more| - 1 ensures Next(more[k], more[k + 1]) {
      if k < |run| - 1 { assert Next(run[k], run[k + 1]); }
    }
  }

  /** From state `at`, the events are marked one after the other with nothing in between. */
  ghost predicate Marks(all: seq<State>, at: nat, events: seq<(SendingEvent, Bytes)>)
    requires at + 2 * |events| < |all|
  {
    forall i :: 0 <= i < |events| ==>
      && Step(all[at + 2 * i], MarkInsert(events[i].1, events[i].0), all[at + 2 * i + 1])
      && Step(all[at + 2 * i + 1], MarkRemove, all[at + 2 * i + 2])
  }

  lemma MarksGrow(all: seq<State>, at: nat, events: seq<(SendingEvent, Bytes)>, s1: State, s2: State)
    requires events != [] && var n := |events| - 1;
      && |all| == at + 2 * n + 1 && Marks(all, at, events[..n])
      && Step(all[|all| - 1], MarkInsert(events[n].1, events[n].0), s1) && Step(s1, MarkRemove, s2)
    ensures Marks(all + [s1] + [s2], at, events)
  {
    hide Step;
    var more, n := all + [s1] + [s2], |events| - 1;
    forall i | 0 <= i < |events|
      ensures && Step(more[at + 2 * i], MarkInsert(events[i].1, events[i].0), more[at + 2 * i + 1])
              && Step(more[at + 2 * i + 1], MarkRemove, more[at + 2 * i + 2])
    {
      if i < n {
        assert events[..n][i] == events[i];
        assert Step(all[at + 2 * i], MarkInsert(events[i].1, events[i].0), all[at + 2 * i + 1]);
      }
    }
  }

  /** Marking events one after the other, while nobody interferes, is a run of these steps, and it leaves the
      trees as `MarkAsActive` does. */
  lemma {:induction false} MarkingIsRun(run: seq<State>, events: seq<(SendingEvent, Bytes)>) returns (more: seq<State>)
    requires Run(run) && var s := run[|run| - 1];
      s.marking.None? && forall i :: 0 <= i < |events| ==>
        events[i].1 in s.known && QueueValue(events[i].0) == s.known[events[i].1]
    ensures Run(run + more) && |more| == 2 * |events| && Marks(run + more, |run| - 1, events)
    ensures var s, t := run[|run| - 1], (run + more)[|run + more| - 1];
      && t.marking.None? && t.known == s.known && t.owed == s.owed
      && t.active == InsertAll(s.active, MarkRows(events)) && t.queued == RemoveAll(s.queued, MarkRows(events))
    decreases |events|
  {
    hide InsertAll, RemoveAll, Marks;
    var s := run[|run| - 1];
    if events == [] {
      more := [];
      assert run + more == run;
      assert Marks(run, |run| - 1, []) by { NoMarks(run); }
      NoRows(s.active);
      NoRows(s.queued);
    } else {
      var n := |events| - 1;
      var (event, key) := events[n];
      more := MarkingIsRun(run, events[..n]);
      var s0 := (run + more)[|run + more| - 1];
      var s1 := Apply(s0, MarkInsert(key, event));
      var s2 := Apply(s1, MarkRemove);
      Extend(run + more, MarkInsert(key, event), s1);
      Extend(run + more + [s1], MarkRemove, s2);
      assert run + more + [s1] + [s2] == run + (more + [s1] + [s2]);
      MarkRowsSnoc(s.active, s.queued, events);
      MarksGrow(run + more, |run| - 1, events, s1, s2);
      more := more + [s1] + [s2];
    }
  }

  lemma NoMarks(run: seq<State>)
    requires run != []
    ensures Marks(run, |run| - 1, [])
  {
  }

  lemma NoRows(t: Table)
    ensures InsertAll(t, MarkRows([])) == t && RemoveAll(t, MarkRows([])) == t
  {
  }

  lemma MarkRowsSnoc(active: Table, queued: Table, events: seq<(SendingEvent, Bytes)>)
    requires events != []
    ensures var n := |events| - 1; var (event, key) := events[n];
      && InsertAll(active, MarkRows(events)) == InsertAll(active, MarkRows(events[..n]))[key := QueueValue(event)]
      && RemoveAll(queued, MarkRows(events)) == RemoveAll(queued, MarkRows(events[..n])) - {key}
  {
    var n := |events| - 1;
    assert MarkRows(events)[..n] == MarkRows(events[..n]);
  }

  /** At every single tree operation of every run, a queued event that was not deleted since is in
      the waiting tree, the active tree or both, with the content it was queued with, exactly unless
      a cleanup hit its last mark in the middle, the mark has ended and it was not queued since. */
  lemma NothingLost(run: seq<State>, k: nat, key: Bytes)
    requires Run(run) && k < |run| && key in run[k].owed
    ensures Held(run[k], key) <==> !Lost(run[k], key)
  {
    RunInv(run, k);
  }

  /** What is held parses back into the destination and event that were queued. */
  lemma HeldParses(g: Grammar, run: seq<State>, k: nat, kind: Kind, event: SendingEvent, count: U64)
    requires Usual(g) && WellFormed(g, kind) && event != Edu([])
    requires Run(run) && k < |run|
    requires var key := QueueKey(kind, event, count);
      key in run[k].owed && !Lost(run[k], key) && key in run[k].known && run[k].known[key] == QueueValue(event)
    ensures var key := QueueKey(kind, event, count); var s := run[k];
      || (key in s.queued && Parse(g, key, s.queued[key]) == Ok((kind, event)))
      || (key in s.active && Parse(g, key, s.active[key]) == Ok((kind, event)))
  {
    NothingLost(run, k, QueueKey(kind, event, count));
    ParseQueued(g, kind, event, count);
  }

  /** The exception is real in every state: if a cleanup deletes an event between the two steps of
      marking it and the event is queued again before the second, it is gone afterwards. */
  lemma DisturbedMarkLoses(s: State, key: Bytes)
    requires Inv(s) && s.marking == Some(key) && key in s.known
    ensures var s1 := Apply(s, CleanupActive(key));
      var s2 := Apply(s1, CleanupQueued(key));
      Enabled(s2, Queue(key, s.known[key]))
      && var s3 := Apply(s2, Queue(key, s.known[key]));
      var t := Apply(s3, MarkRemove);
      key in t.owed && key !in t.queued && key !in t.active
  {
  }
}
