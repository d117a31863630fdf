/** The walk that answers a server asking for events it is missing: backwards from the latest events
    through `prev_events`, in a queue that grows while it is being scanned. */
module MissingEvents {
  import opened Wrappers

  type EventId = string
  type RoomId = string

  /** The `room_id` field of a stored event. */
  datatype RoomField = Missing | Malformed | In(room: RoomId)

  /** A stored event; `prev` is none when the field is missing or malformed. */
  datatype Stored = Unreadable | Readable(room: RoomField, prev: Option<seq<EventId>>)

  /** Everything the walk consults; a visibility of none is a failed lookup. */
  datatype World = World(
    db: map<EventId, Stored>,
    room: RoomId,
    earliest: set<EventId>,
    canSee: EventId -> Option<bool>)

  datatype WalkError = BadDatabase(event: EventId) | EvilEvent(event: EventId)

  /** What scanning one event does: fail, pass over it, or return it and queue its predecessors. */
  datatype Outcome = Fail(error: WalkError) | Skip | Return(prev: seq<EventId>)

  function Visit(w: World, e: EventId): Outcome {
    if e !in w.db then Skip
    else match w.db[e]
      case Unreadable => Fail(BadDatabase(e))
      case Readable(room, prev) =>
        if !room.In? then Fail(BadDatabase(e))
        else if room.room != w.room then Fail(EvilEvent(e))
        else if e in w.earliest then Skip
        else if w.canSee(e).None? then Fail(BadDatabase(e))
        else if !w.canSee(e).value then Skip
        else if prev.None? then Fail(BadDatabase(e))
        else Return(prev.value)
  }

  /** Known, in the room, not an earliest event, visible and intact. */
  predicate Returnable(w: World, e: EventId) {
    && e in w.db && w.db[e].Readable? && w.db[e].room == In(w.room) && w.db[e].prev.Some?
    && e !in w.earliest && w.canSee(e) == Some(true)
  }

  /** An event is returned when it is known, readable and intact, in the room, visible and no earliest event. */
  lemma VisitReturns(w: World, e: EventId)
    ensures Visit(w, e).Return? <==>
            && e in w.db && w.db[e].Readable? && w.db[e].room == In(w.room) && w.db[e].prev.Some?
            && e !in w.earliest && w.canSee(e) == Some(true)
    ensures Visit(w, e).Return? ==> Visit(w, e).prev == w.db[e].prev.value
  {
  }

  lemma ReturnsIff(w: World, e: EventId)
    ensures Visit(w, e).Return? <==> Returnable(w, e)
    ensures Visit(w, e).Return? ==> Visit(w, e).prev == Prev(w, e)
  {
    VisitReturns(w, e);
  }

  /** A known event of another room. */
  predicate Foreign(w: World, e: EventId) {
    e in w.db && w.db[e].Readable? && w.db[e].room.In? && w.db[e].room.room != w.room
  }

  /** A known event that cannot be read, has no valid room, or would have to be returned if its visibility
      could be found out and it had its predecessors. */
  predicate Broken(w: World, e: EventId) {
    && e in w.db
    && (|| w.db[e].Unreadable? || !w.db[e].room.In?
        || (w.db[e].room == In(w.room) && e !in w.earliest
            && (w.canSee(e).None? || (w.canSee(e) == Some(true) && w.db[e].prev.None?))))
  }

  lemma VisitFails(w: World, e: EventId)
    ensures Visit(w, e) == Fail(EvilEvent(e)) <==> Foreign(w, e)
    ensures Visit(w, e) == Fail(BadDatabase(e)) <==> Broken(w, e)
    ensures Visit(w, e).Fail? ==> Foreign(w, e) || Broken(w, e)
  {
  }

  function Prev(w: World, e: EventId): seq<EventId> {
    if e in w.db && w.db[e].Readable? && w.db[e].prev.Some? then w.db[e].prev.value else []
  }

  /** `path` leads from a latest event through returnable events, each named by the one before. */
  ghost predicate Path(w: World, latest: seq<EventId>, path: seq<EventId>) {
    && path != [] && path[0] in latest
    && (forall i :: 0 <= i < |path| - 1 ==> Returnable(w, path[i]) && path[i + 1] in Prev(w, path[i]))
  }

  /** The walk can come to `e`. */
  ghost predicate Reachable(w: World, latest: seq<EventId>, e: EventId) {
    exists path :: Path(w, latest, path) && path[|path| - 1] == e
  }

  /** Each event comes from the latest ones or is named by an event returned before it. */
  ghost predicate Linked(w: World, latest: seq<EventId>, events: seq<EventId>) {
    forall i :: 0 <= i < |events| ==> Came(w, latest, events[..i], events[i])
  }

  ghost predicate Came(w: World, latest: seq<EventId>, events: seq<EventId>, e: EventId) {
    e in latest || exists j :: 0 <= j < |events| && e in Prev(w, events[j])
  }

  /** Nothing more can be added: all predecessors of what is there have been looked at. */
  ghost predicate Closed(w: World, latest: seq<EventId>, events: seq<EventId>) {
    forall e :: Came(w, latest, events, e) ==> Seen(w, events, e)
  }

  ghost predicate Seen(w: World, events: seq<EventId>, e: EventId) {
    !Foreign(w, e) && !Broken(w, e) && (Returnable(w, e) ==> e in events)
  }

  // ---------- breadth first ----------

  /** What the event at `j` names; the latest events are named at the start. */
  ghost function Named(w: World, latest: seq<EventId>, events: seq<EventId>, j: int): seq<EventId>
    requires -1 <= j < |events|
  {
    if j == -1 then latest else Prev(w, events[j])
  }

  /** Event `i` was named at `from[i]`. Events are returned in the order in which they were named, and before
      event `i` everything named earlier has been dealt with. */
  ghost predicate BreadthFirst(w: World, latest: seq<EventId>, events: seq<EventId>, from: seq<int>) {
    && |from| == |events|
    && (forall i :: 0 <= i < |events| ==> -1 <= from[i] < i && events[i] in Named(w, latest, events, from[i]))
    && (forall i, j :: 0 <= i < j < |events| ==> from[i] <= from[j])
    && (forall i, j :: 0 <= i < |events| && -1 <= j < from[i] ==> Done(w, latest, events, j, i))
  }

  /** Of what was named at `j`, nothing is broken or foreign and everything returnable is among the first `i`
      events. */
  ghost predicate Done(w: World, latest: seq<EventId>, events: seq<EventId>, j: int, i: nat)
    requires -1 <= j < |events| && i <= |events|
  {
    forall e :: e in Named(w, latest, events, j) ==> Seen(w, events[..i], e)
  }

  /** The queue holds everything named, in the order of naming. */
  ghost predicate Sourced(w: World, latest: seq<EventId>, queue: seq<EventId>, events: seq<EventId>, source: seq<int>) {
    && |source| == |queue|
    && (forall k :: 0 <= k < |queue| ==>
          -1 <= source[k] < |events| && queue[k] in Named(w, latest, events, source[k]))
    && (forall k, l :: 0 <= k < l < |queue| ==> source[k] <= source[l])
    && (forall j, e :: -1 <= j < |events| && e in Named(w, latest, events, j) ==> At(queue, source, j, e))
  }

  ghost predicate At(queue: seq<EventId>, source: seq<int>, j: int, e: EventId)
    requires |source| == |queue|
  {
    exists k :: 0 <= k < |queue| && source[k] == j && queue[k] == e
  }

  ghost function Append(source: seq<int>, n: nat, j: int): (longer: seq<int>)
    ensures |longer| == |source| + n && longer[..|source|] == source
    ensures forall k :: |source| <= k < |longer| ==> longer[k] == j
  {
    source + seq(n, _ => j)
  }

  lemma SourcedGrows(w: World, latest: seq<EventId>, queue: seq<EventId>, events: seq<EventId>, source: seq<int>,
                     e: EventId)
    requires Sourced(w, latest, queue, events, source)
    ensures Sourced(w, latest, queue + Prev(w, e), events + [e], Append(source, |Prev(w, e)|, |events|))
  {
    var more, queue', source' := events + [e], queue + Prev(w, e), Append(source, |Prev(w, e)|, |events|);
    forall k | 0 <= k < |queue'|
      ensures -1 <= source'[k] < |more| && queue'[k] in Named(w, latest, more, source'[k])
    {
      if k < |queue| {
        assert source'[k] == source[k];
      } else {
        assert queue'[k] == Prev(w, e)[k - |queue|];
      }
    }
    forall k, l | 0 <= k < l < |queue'| ensures source'[k] <= source'[l] {
      if l < |queue| { assert source'[k] == source[k] && source'[l] == source[l]; }
      if k < |queue| { assert source'[k] == source[k]; }
    }
    forall j, x | -1 <= j < |more| && x in Named(w, latest, more, j) ensures At(queue', source', j, x) {
      if j < |events| {
        assert At(queue, source, j, x);
        var k :| 0 <= k < |queue| && source[k] == j && queue[k] == x;
        assert source'[k] == j && queue'[k] == x;
      } else {
        var k :| 0 <= k < |Prev(w, e)| && Prev(w, e)[k] == x;
        assert source'[|queue| + k] == j && queue'[|queue| + k] == x;
      }
    }
  }

  lemma SourcesRise(w: World, latest: seq<EventId>, queue: seq<EventId>, events: seq<EventId>, source: seq<int>, i: nat)
    requires Sourced(w, latest, queue, events, source)
    ensures |source| == |queue| && (i + 1 < |queue| ==> source[i] <= source[i + 1])
  {
  }

  lemma NamedStays(w: World, latest: seq<EventId>, events: seq<EventId>, e: EventId, j: int)
    requires -1 <= j < |events|
    ensures Named(w, latest, events + [e], j) == Named(w, latest, events, j)
  {
  }

  lemma DoneStays(w: World, latest: seq<EventId>, events: seq<EventId>, e: EventId, j: int, i: nat)
    requires -1 <= j < |events| && i <= |events| && Done(w, latest, events, j, i)
    ensures Done(w, latest, events + [e], j, i)
  {
    assert (events + [e])[..i] == events[..i];
  }

  /** Before the walk comes to queue position `i`, all that was named before that position's source is done. */
  lemma DoneBefore(w: World, latest: seq<EventId>, queue: seq<EventId>, events: seq<EventId>, source: seq<int>,
                   i: nat, j: int)
    requires Sourced(w, latest, queue, events, source) && i < |queue| && -1 <= j < source[i]
    requires forall k :: 0 <= k < i ==> Seen(w, events, queue[k])
    ensures Done(w, latest, events, j, |events|)
  {
    assert events[..|events|] == events;
    forall e | e in Named(w, latest, events, j) ensures Seen(w, events, e) {
      assert At(queue, source, j, e);
      var k :| 0 <= k < |queue| && source[k] == j && queue[k] == e;
      assert k < i && Seen(w, events, queue[k]);
    }
  }

  lemma BreadthGrows(w: World, latest: seq<EventId>, queue: seq<EventId>, events: seq<EventId>, source: seq<int>,
                     from: seq<int>, i: nat)
    requires Sourced(w, latest, queue, events, source) && BreadthFirst(w, latest, events, from) && i < |queue|
    requires from != [] ==> from[|from| - 1] <= source[i]
    requires forall k :: 0 <= k < i ==> Seen(w, events, queue[k])
    ensures BreadthFirst(w, latest, events + [queue[i]], from + [source[i]])
  {
    hide Named, Done, Seen, At;
    var more, from' := events + [queue[i]], from + [source[i]];
    forall n | 0 <= n < |more| ensures -1 <= from'[n] < n && more[n] in Named(w, latest, more, from'[n]) {
      NamedStays(w, latest, events, queue[i], from'[n]);
    }
    forall n, j | 0 <= n < |more| && -1 <= j < from'[n] ensures Done(w, latest, more, j, n) {
      if n == |events| { DoneBefore(w, latest, queue, events, source, i, j); }
      DoneStays(w, latest, events, queue[i], j, n);
    }
  }

  ghost predicate QueueOk(w: World, latest: seq<EventId>, queue: seq<EventId>, events: seq<EventId>) {
    forall e :: e in queue <==> Came(w, latest, events, e)
  }

  lemma QueueGrows(w: World, latest: seq<EventId>, queue: seq<EventId>, events: seq<EventId>, e: EventId)
    requires QueueOk(w, latest, queue, events) && Returnable(w, e)
    ensures QueueOk(w, latest, queue + Prev(w, e), events + [e])
  {
    forall x ensures x in queue + Prev(w, e) <==> Came(w, latest, events + [e], x) {
      assert x in queue <==> Came(w, latest, events, x);
      if Came(w, latest, events + [e], x) && x !in latest {
        var j :| 0 <= j < |events + [e]| && x in Prev(w, (events + [e])[j]);
        if j < |events| { assert x in Prev(w, events[j]); }
      }
      if x in Prev(w, e) { assert (events + [e])[|events|] == e; }
      if x in queue && x !in latest {
        var j :| 0 <= j < |events| && x in Prev(w, events[j]);
        assert (events + [e])[j] == events[j];
      }
    }
  }

  /** Terminates on every event graph, cycles included. Stopping short of the limit means that
      everything within reach was returned and none of it was broken or in another room. */
  method Walk(w: World, latest: seq<EventId>, limit: nat) returns (r: Result<seq<EventId>, WalkError>)
    ensures r.Ok? ==> |r.value| <= limit && Linked(w, latest, r.value)
    ensures r.Ok? ==> exists from :: BreadthFirst(w, latest, r.value, from)
    ensures r.Ok? ==> forall e :: e in r.value ==> Returnable(w, e)
    ensures r.Ok? && |r.value| < limit ==> Closed(w, latest, r.value)
    ensures r.Err? ==> exists events :: |events| < limit && Linked(w, latest, events)
                         && (forall x :: x in events ==> Returnable(w, x))
                         && Came(w, latest, events, r.error.event)
    ensures r.Err? && r.error.EvilEvent? ==>
              var e := r.error.event; e in w.db && w.db[e].Readable? && w.db[e].room.In? && w.db[e].room.room != w.room
    ensures r.Err? && r.error.BadDatabase? ==>
              var e := r.error.event;
              && e in w.db
              && (|| w.db[e].Unreadable? || !w.db[e].room.In?
                  || (w.db[e].room == In(w.room) && e !in w.earliest
                      && (w.canSee(e).None? || (w.canSee(e) == Some(true) && w.db[e].prev.None?))))
  {
    var queue := latest;
    var events: seq<EventId> := [];
    var i := 0;
    ghost var source: seq<int> := seq(|latest|, _ => -1);
    ghost var from: seq<int> := [];
    while i < |queue| && |events| < limit
      invariant i <= |queue| && |events| <= limit
      invariant Progress(w, latest, queue, events, i, source, from)
      decreases limit - |events|, |queue| - i
    {
      hide Progress, Visit, Linked, Came, Returnable, Prev;
      var e := queue[i];
      ReturnsIff(w, e);
      VisitFails(w, e);
      match Visit(w, e)
      case Fail(error) =>
        FailsInReach(w, latest, queue, events, i, source, from);
        return Err(error);
      case Skip =>
        SkipStep(w, latest, queue, events, i, source, from);
        i := i + 1;
      case Return(prev) =>
        ReturnStep(w, latest, queue, events, i, source, from);
        from := from + [source[i]];
        source := Append(source, |Prev(w, e)|, |events|);
        queue := queue + prev;
        events := events + [e];
        i := i + 1;
    }
    if i == |queue| { AllSeen(w, latest, queue, events, source, from); }
    return Ok(events);
  }

  /** What holds when the walk has come to queue position `i`. */
  ghost predicate Progress(w: World, latest: seq<EventId>, queue: seq<EventId>, events: seq<EventId>, i: nat,
                           source: seq<int>, from: seq<int>) {
    && i <= |queue| && QueueOk(w, latest, queue, events) && Linked(w, latest, events)
    && Sourced(w, latest, queue, events, source) && BreadthFirst(w, latest, events, from)
    && (from != [] && i < |queue| ==> from[|from| - 1] <= source[i])
    && (forall e :: e in events ==> Returnable(w, e))
    && (forall k :: 0 <= k < i ==> Seen(w, events, queue[k]))
  }

  lemma FailsInReach(w: World, latest: seq<EventId>, queue: seq<EventId>, events: seq<EventId>, i: nat,
                     source: seq<int>, from: seq<int>)
    requires Progress(w, latest, queue, events, i, source, from) && i < |queue|
    ensures Linked(w, latest, events) && (forall x :: x in events ==> Returnable(w, x))
    ensures Came(w, latest, events, queue[i])
  {
    InQueue(w, latest, queue, events, i);
  }

  lemma SkipStep(w: World, latest: seq<EventId>, queue: seq<EventId>, events: seq<EventId>, i: nat,
                 source: seq<int>, from: seq<int>)
    requires Progress(w, latest, queue, events, i, source, from) && i < |queue|
    requires !Foreign(w, queue[i]) && !Broken(w, queue[i]) && !Returnable(w, queue[i])
    ensures Progress(w, latest, queue, events, i + 1, source, from)
  {
    hide Sourced, BreadthFirst, QueueOk, Linked, Came, Returnable, Foreign, Broken;
    SourcesRise(w, latest, queue, events, source, i);
  }

  lemma ReturnStep(w: World, latest: seq<EventId>, queue: seq<EventId>, events: seq<EventId>, i: nat,
                   source: seq<int>, from: seq<int>)
    requires Progress(w, latest, queue, events, i, source, from) && i < |queue| && Returnable(w, queue[i])
    requires !Foreign(w, queue[i]) && !Broken(w, queue[i])
    ensures var e := queue[i];
      && i < |source|
      && Progress(w, latest, queue + Prev(w, e), events + [e], i + 1, Append(source, |Prev(w, e)|, |events|),
                  from + [source[i]])
  {
    hide Sourced, BreadthFirst, QueueOk, Linked, Came, Returnable, Prev, Foreign, Broken;
    var e := queue[i];
    var queue', events', source' := queue + Prev(w, e), events + [e], Append(source, |Prev(w, e)|, |events|);
    InQueue(w, latest, queue, events, i);
    QueueGrows(w, latest, queue, events, e);
    LinkedGrows(w, latest, events, e);
    SourcesRise(w, latest, queue, events, source, i);
    BreadthGrows(w, latest, queue, events, source, from, i);
    SourcedGrows(w, latest, queue, events, source, e);
    SourcesRise(w, latest, queue', events', source', i);
    assert source'[i] == source'[..|source|][i] == source[i];
    forall k | 0 <= k < i + 1 ensures Seen(w, events', queue'[k]) {
      assert queue'[k] == queue[k];
      assert k < i ==> Seen(w, events, queue[k]);
    }
  }

  lemma AllSeen(w: World, latest: seq<EventId>, queue: seq<EventId>, events: seq<EventId>,
                source: seq<int>, from: seq<int>)
    requires Progress(w, latest, queue, events, |queue|, source, from)
    ensures Closed(w, latest, events)
  {
    hide Sourced, BreadthFirst, Linked, Came, Seen;
    forall e | Came(w, latest, events, e) ensures Seen(w, events, e) {
      assert e in queue;
      var k :| 0 <= k < |queue| && queue[k] == e;
      assert Seen(w, events, queue[k]);
    }
  }

  lemma InQueue(w: World, latest: seq<EventId>, queue: seq<EventId>, events: seq<EventId>, i: nat)
    requires QueueOk(w, latest, queue, events) && i < |queue|
    ensures Came(w, latest, events, queue[i])
  {
    assert queue[i] in queue;
  }

  lemma LinkedGrows(w: World, latest: seq<EventId>, events: seq<EventId>, e: EventId)
    requires Linked(w, latest, events) && Came(w, latest, events, e)
    ensures Linked(w, latest, events + [e])
  {
    var more := events + [e];
    forall i | 0 <= i < |more| ensures Came(w, latest, more[..i], more[i]) {
      if i < |events| {
        assert more[..i] == events[..i] && Came(w, latest, events[..i], events[i]);
      } else {
        assert more[..i] == events;
      }
    }
  }

  // ---------- the result against reachability ----------

  lemma PathGrows(w: World, latest: seq<EventId>, path: seq<EventId>, e: EventId)
    requires Path(w, latest, path) && Returnable(w, path[|path| - 1]) && e in Prev(w, path[|path| - 1])
    ensures Path(w, latest, path + [e]) && (path + [e])[|path|] == e
  {
  }

  lemma {:induction false} LinkedIsReachable(w: World, latest: seq<EventId>, events: seq<EventId>, i: nat)
    requires Linked(w, latest, events) && (forall e :: e in events ==> Returnable(w, e)) && i < |events|
    ensures Reachable(w, latest, events[i])
    decreases i
  {
    assert Came(w, latest, events[..i], events[i]);
    if events[i] in latest {
      assert Path(w, latest, [events[i]]);
    } else {
      var j :| 0 <= j < i && events[i] in Prev(w, events[..i][j]);
      LinkedIsReachable(w, latest, events, j);
      var path :| Path(w, latest, path) && path[|path| - 1] == events[j];
      assert events[j] in events;
      PathGrows(w, latest, path, events[i]);
    }
  }

  lemma {:induction false} ClosedHoldsPath(w: World, latest: seq<EventId>, events: seq<EventId>, path: seq<EventId>)
    requires Closed(w, latest, events) && Path(w, latest, path)
    ensures Came(w, latest, events, path[|path| - 1])
    decreases |path|
  {
    var n := |path| - 1;
    if n > 0 {
      var shorter := path[..n];
      ClosedHoldsPath(w, latest, events, shorter);
      assert shorter[n - 1] == path[n - 1] && Returnable(w, path[n - 1]);
      var j :| 0 <= j < |events| && events[j] == path[n - 1];
      assert path[n - 1 + 1] in Prev(w, events[j]);
    }
  }

  /** An answer shorter than the limit is exactly the set of returnable events within reach. */
  lemma ShortAnswerIsExact(w: World, latest: seq<EventId>, events: seq<EventId>, e: EventId)
    requires Linked(w, latest, events) && Closed(w, latest, events) && forall x :: x in events ==> Returnable(w, x)
    ensures e in events <==> Reachable(w, latest, e) && Returnable(w, e)
  {
    if e in events {
      var i :| 0 <= i < |events| && events[i] == e;
      LinkedIsReachable(w, latest, events, i);
    }
    if Reachable(w, latest, e) && Returnable(w, e) {
      var path :| Path(w, latest, path) && path[|path| - 1] == e;
      ClosedHoldsPath(w, latest, events, path);
    }
  }

  /** A short answer also means that no event within reach is broken or from another room. */
  lemma ShortAnswerIsClean(w: World, latest: seq<EventId>, events: seq<EventId>, e: EventId)
    requires Closed(w, latest, events) && Reachable(w, latest, e)
    ensures e in w.db ==> w.db[e].Readable? && w.db[e].room == In(w.room)
    ensures e in w.db && e !in w.earliest ==>
              w.canSee(e).Some? && (w.canSee(e) == Some(true) ==> w.db[e].prev.Some?)
  {
    var path :| Path(w, latest, path) && path[|path| - 1] == e;
    ClosedHoldsPath(w, latest, events, path);
  }

  /** A refusal names an event within reach that is broken or from another room. */
  lemma RefusalIsReachable(w: World, latest: seq<EventId>, events: seq<EventId>, e: EventId)
    requires Linked(w, latest, events) && (forall x :: x in events ==> Returnable(w, x)) && Came(w, latest, events, e)
    ensures Reachable(w, latest, e)
  {
    if e in latest {
      assert Path(w, latest, [e]);
    } else {
      var j :| 0 <= j < |events| && e in Prev(w, events[j]);
      LinkedIsReachable(w, latest, events, j);
      var path :| Path(w, latest, path) && path[|path| - 1] == events[j];
      assert events[j] in events;
      PathGrows(w, latest, path, e);
    }
  }

  // ---------- the nearest events ----------

  /** How many steps back from the latest events event `i` was named. */
  ghost function Depth(from: seq<int>, i: nat): nat
    requires i < |from| && forall k :: 0 <= k < |from| ==> -1 <= from[k] < k
    decreases i
  {
    if from[i] == -1 then 0 else 1 + Depth(from, from[i])
  }

  lemma NamedIsBefore(w: World, latest: seq<EventId>, events: seq<EventId>, from: seq<int>, i: nat, j: int, e: EventId)
    requires BreadthFirst(w, latest, events, from) && i < |events| && -1 <= j < from[i]
    requires e in Named(w, latest, events, j) && Returnable(w, e)
    ensures e in events[..i]
  {
    hide Foreign, Broken, Returnable, Named;
    assert Done(w, latest, events, j, i);
    assert Seen(w, events[..i], e);
  }

  lemma PathShrinks(w: World, latest: seq<EventId>, path: seq<EventId>)
    requires Path(w, latest, path) && |path| > 1
    ensures var n := |path| - 1;
      Path(w, latest, path[..n]) && Returnable(w, path[n - 1]) && path[n] in Prev(w, path[n - 1])
  {
    var n := |path| - 1;
    assert Returnable(w, path[n - 1]) && path[n - 1 + 1] in Prev(w, path[n - 1]);
  }

  /** What lies fewer steps back than event `i` was returned before it. */
  lemma {:induction false} ShallowerIsBefore(w: World, latest: seq<EventId>, events: seq<EventId>, from: seq<int>,
                                             path: seq<EventId>, i: nat)
    requires BreadthFirst(w, latest, events, from) && i < |events|
    requires Path(w, latest, path) && Returnable(w, path[|path| - 1]) && |path| <= Depth(from, i)
    ensures path[|path| - 1] in events[..i]
    decreases |path|
  {
    hide Returnable, Prev, Done;
    var n, j := |path| - 1, from[i];
    if n == 0 {
      NamedIsBefore(w, latest, events, from, i, -1, path[0]);
    } else {
      PathShrinks(w, latest, path);
      hide Path;
      ShallowerIsBefore(w, latest, events, from, path[..n], j);
      var k :| 0 <= k < j && events[k] == path[n - 1];
      NamedIsBefore(w, latest, events, from, i, k, path[n]);
    }
  }

  lemma {:induction false} PathOfDepth(w: World, latest: seq<EventId>, events: seq<EventId>, from: seq<int>, i: nat)
    returns (path: seq<EventId>)
    requires BreadthFirst(w, latest, events, from) && i < |events| && forall e :: e in events ==> Returnable(w, e)
    ensures Path(w, latest, path) && path[|path| - 1] == events[i] && |path| == Depth(from, i) + 1
    decreases i
  {
    hide Done, Returnable, Prev;
    assert events[i] in Named(w, latest, events, from[i]);
    if from[i] == -1 {
      path := [events[i]];
    } else {
      path := PathOfDepth(w, latest, events, from, from[i]);
      assert events[from[i]] in events;
      PathGrows(w, latest, path, events[i]);
      path := path + [events[i]];
    }
  }

  /** The limit cuts off the far end: a returnable event that is left out lies no nearer to the latest events
      than any event of the answer. */
  lemma NearestFirst(w: World, latest: seq<EventId>, events: seq<EventId>, from: seq<int>, left: seq<EventId>, i: nat)
    returns (path: seq<EventId>)
    requires BreadthFirst(w, latest, events, from) && i < |events| && forall e :: e in events ==> Returnable(w, e)
    requires Path(w, latest, left) && Returnable(w, left[|left| - 1]) && left[|left| - 1] !in events
    ensures Path(w, latest, path) && path[|path| - 1] == events[i] && |path| <= |left|
  {
    if |left| <= Depth(from, i) { ShallowerIsBefore(w, latest, events, from, left, i); }
    path := PathOfDepth(w, latest, events, from, i);
  }
}
