/** The stored timeline of a room, the cache of its last position, and the part of it that a sync
    response shows. */
module Timeline {
  import opened Wrappers
  import opened Bytes
  import K = KvTree
  import opened PduIds

  predicate Ascending(cs: seq<PduCount>) {
    forall i, j :: 0 <= i < j < |cs| ==> Less(cs[i], cs[j])
  }

  predicate Descending(cs: seq<PduCount>) {
    forall i, j :: 0 <= i < j < |cs| ==> Less(cs[j], cs[i])
  }

  /** The response shows, in order, the newest events after `since`, at most `limit` of them. It is limited
      exactly when it leaves one out, and it leaves one out only when it is full. */
  ghost predicate Shows(log: set<PduCount>, since: PduCount, limit: nat, events: seq<PduCount>, limited: bool) {
    && Ascending(events) && |events| <= limit
    && (forall c :: c in events ==> c in log && Less(since, c))
    && (forall c, x :: c in events && x in log && Less(c, x) ==> x in events)
    && (limited <==> exists x :: x in log && Less(since, x) && x !in events)
    && (limited ==> |events| == limit)
  }

  ghost function EventsAfter(log: set<PduCount>, since: PduCount): set<PduCount> {
    set c | c in log && Less(since, c)
  }

  lemma {:induction false} AscendingSize(cs: seq<PduCount>)
    requires Ascending(cs)
    ensures |set c | c in cs| == |cs|
  {
    if cs == [] {
      assert (set c | c in cs) == {};
    } else {
      var n := |cs| - 1;
      AscendingSize(cs[..n]);
      assert cs[n] !in cs[..n];
      assert (set c | c in cs) == (set c | c in cs[..n]) + {cs[n]} by { assert cs == cs[..n] + [cs[n]]; }
    }
  }

  /** A response is limited exactly when there are more events after `since` than it may show; if it is not,
      it shows them all. */
  lemma LimitedIff(log: set<PduCount>, since: PduCount, limit: nat, events: seq<PduCount>, limited: bool)
    requires Shows(log, since, limit, events, limited)
    ensures limited <==> |EventsAfter(log, since)| > limit
    ensures !limited ==> forall c :: c in EventsAfter(log, since) ==> c in events
  {
    var shown := set c | c in events;
    AscendingSize(events);
    if limited {
      var x :| x in log && Less(since, x) && x !in events;
      SubsetSize(shown + {x}, EventsAfter(log, since));
    } else {
      SubsetSize(EventsAfter(log, since), shown);
    }
  }

  lemma {:induction false} AscendingUnique(a: seq<PduCount>, b: seq<PduCount>)
    requires Ascending(a) && Ascending(b) && forall c :: c in a <==> c in b
    ensures a == b
    decreases |a|
  {
    if a == [] {
      assert forall i :: 0 <= i < |b| ==> b[i] in b;
    } else {
      assert a[0] in b && b != [] && b[0] in a;
      assert a[0] == b[0];
      forall c ensures c in a[1..] <==> c in b[1..] {
        assert c in a[1..] ==> c in a && c != a[0];
        assert c in b[1..] ==> c in b && c != b[0];
      }
      AscendingUnique(a[1..], b[1..]);
      assert a == [a[0]] + a[1..] && b == [b[0]] + b[1..];
    }
  }

  /** A response that lacks an event shown by another is full, and all it shows comes later. */
  lemma LackingIsNewer(log: set<PduCount>, since: PduCount, limit: nat, e1: seq<PduCount>, l1: bool,
                       e2: seq<PduCount>, l2: bool, c: PduCount)
    requires Shows(log, since, limit, e1, l1) && Shows(log, since, limit, e2, l2) && c in e1 && c !in e2
    ensures |e2| == limit && Ascending(e2) && forall y :: y in e2 ==> y in e1
  {
    forall y | y in e2 ensures y in e1 {
      assert y in log && c in log;
      assert Less(c, y);
    }
  }

  lemma ShownInBoth(log: set<PduCount>, since: PduCount, limit: nat, e1: seq<PduCount>, l1: bool,
                    e2: seq<PduCount>, l2: bool, c: PduCount)
    requires Shows(log, since, limit, e1, l1) && Shows(log, since, limit, e2, l2) && c in e1
    ensures c in e2
  {
    AscendingSize(e1);
    assert |e1| <= limit;
    hide Shows, Ascending;
    if c !in e2 {
      LackingIsNewer(log, since, limit, e1, l1, e2, l2, c);
      AscendingSize(e2);
      SubsetSize((set y | y in e2) + {c}, set y | y in e1);
    }
  }

  /** A log has only one correct response. */
  lemma ShowsUnique(log: set<PduCount>, since: PduCount, limit: nat, e1: seq<PduCount>, l1: bool,
                    e2: seq<PduCount>, l2: bool)
    requires Shows(log, since, limit, e1, l1) && Shows(log, since, limit, e2, l2)
    ensures e1 == e2 && l1 == l2
  {
    forall c ensures c in e1 <==> c in e2 {
      if c in e1 { ShownInBoth(log, since, limit, e1, l1, e2, l2, c); }
      if c in e2 { ShownInBoth(log, since, limit, e2, l2, e1, l1, c); }
    }
    AscendingUnique(e1, e2);
  }

  ghost predicate Greatest(log: set<PduCount>, c: PduCount) {
    c in log && forall x :: x in log ==> AtMost(x, c)
  }

  /** What `last_timeline_count` finds by scanning: 0 for a room without events. */
  ghost predicate IsLast(log: set<PduCount>, c: PduCount) {
    if log == {} then c == Normal(0) else Greatest(log, c)
  }

  /** With the right last position, an early empty answer is the answer the scan would give. */
  lemma EmptyShows(log: set<PduCount>, since: PduCount, limit: nat, last: PduCount)
    requires IsLast(log, last) && !Less(since, last)
    ensures Shows(log, since, limit, [], false)
  {
  }

  // ---------- the database rows ----------

  /** A row of room `short` as the writers make it; counts 0 and 2^64 - 1 are never handed out. */
  predicate IsRow(short: U64, k: Bytes) {
    && |k| >= 16 && CountOfId(k).Some?
    && k == PduId(short, CountOfId(k).value) && Usable(CountOfId(k).value)
  }

  predicate Usable(c: PduCount) {
    c != Normal(0) && c != Normal(U64_MAX)
  }

  ghost predicate IsRoom(t: K.Table, short: U64) {
    short != 0 && forall k :: k in t && Be64(short) <= k ==> IsRow(short, k)
  }

  /** The events stored for the room; rows that are no events (`good` fails) are passed over. */
  ghost function Log(t: K.Table, short: U64, good: Bytes -> bool): (log: set<PduCount>)
    requires IsRoom(t, short)
  {
    set k | k in t && Be64(short) <= k && good(t[k]) :: CountOfId(k).value
  }

  lemma RowOf(short: U64, c: PduCount)
    requires short != 0 && Usable(c)
    ensures IsRow(short, PduId(short, c)) && CountOfId(PduId(short, c)).value == c && Be64(short) <= PduId(short, c)
  {
    CountOfPduId(short, c);
  }

  lemma InLog(t: K.Table, short: U64, good: Bytes -> bool, c: PduCount)
    requires IsRoom(t, short)
    ensures c in Log(t, short, good) <==> Usable(c) && PduId(short, c) in t && good(t[PduId(short, c)])
  {
    if Usable(c) { RowOf(short, c); }
    if c in Log(t, short, good) {
      var k :| k in t && Be64(short) <= k && good(t[k]) && CountOfId(k).value == c;
      assert IsRow(short, k);
    }
  }

  /** Storing an event adds it to its room and leaves every other room alone. */
  lemma InsertGrows(t: K.Table, short: U64, c: PduCount, json: Bytes, good: Bytes -> bool)
    requires IsRoom(t, short) && Usable(c) && good(json)
    ensures IsRoom(t[PduId(short, c) := json], short)
    ensures Log(t[PduId(short, c) := json], short, good) == Log(t, short, good) + {c}
  {
    var u := t[PduId(short, c) := json];
    RowOf(short, c);
    assert IsRoom(u, short);
    forall x ensures x in Log(u, short, good) <==> x in Log(t, short, good) || x == c {
      InLog(u, short, good, x);
      InLog(t, short, good, x);
      if Usable(x) && PduId(short, x) == PduId(short, c) { RowOf(short, x); }
    }
  }

  lemma InsertElsewhere(t: K.Table, short: U64, c: PduCount, json: Bytes, good: Bytes -> bool, room: U64)
    requires IsRoom(t, room) && room != short
    ensures IsRoom(t[PduId(short, c) := json], room)
    ensures Log(t[PduId(short, c) := json], room, good) == Log(t, room, good)
  {
    var k := PduId(short, c);
    if Be64(room) <= k {
      assert k[..8] == Be64(short) && k[..8] == Be64(room);
      Be64Injective(short, room);
    }
  }

  /** Where a backward scan from before `until` starts. The subtraction wraps around below 0, and the
      last backfilled position is not stepped over. */
  function SeekPosition(until: PduCount): PduCount {
    match until
    case Normal(n) => Normal(if n > 0 then n - 1 else U64_MAX)
    case Backfilled(n) => Backfilled(if n < U64_MAX then n + 1 else n)
  }

  function SeekKey(short: U64, until: PduCount): Bytes {
    PduId(short, SeekPosition(until))
  }

  /** What such a scan visits: everything before `until`, with three exceptions. From position 0 it visits
      all, from position 1 nothing, although backfilled events come before that, and from the last
      backfilled position that position itself. */
  predicate Visited(c: PduCount, until: PduCount) {
    if until == Normal(0) then true
    else if until == Normal(1) then false
    else if until == Backfilled(U64_MAX) then c == until
    else Less(c, until)
  }

  lemma InSeek(t: K.Table, short: U64, until: PduCount, k: Bytes)
    requires IsRoom(t, short)
    ensures k in K.PrefixKeysFrom(t, Be64(short), SeekKey(short, until), true) <==>
            k in t && Be64(short) <= k && Visited(CountOfId(k).value, until)
  {
    if k in t && Be64(short) <= k {
      assert IsRow(short, k);
      VisitedInSeek(short, CountOfId(k).value, until);
    }
  }

  lemma VisitedInSeek(short: U64, c: PduCount, until: PduCount)
    requires Usable(c)
    ensures LexLe(PduId(short, c), SeekKey(short, until)) <==> Visited(c, until)
  {
    hide PduId, LexLe;
    PduIdOrder(short, c, SeekPosition(until));
  }

  lemma RowsDescend(short: U64, ks: seq<Bytes>, i: nat, j: nat)
    requires K.Ordered(ks, true) && i < j < |ks| && IsRow(short, ks[i]) && IsRow(short, ks[j])
    ensures Less(CountOfId(ks[j]).value, CountOfId(ks[i]).value)
  {
    assert K.After(ks[i], ks[j], true) && ks[i] != ks[j];
    PduIdOrder(short, CountOfId(ks[j]).value, CountOfId(ks[i]).value);
  }

  // ---------- the service ----------

  /** Passes over the rows that are no events. */
  method KeepGood(counts: seq<PduCount>, good: seq<bool>) returns (cs: seq<PduCount>)
    requires Descending(counts) && |good| == |counts|
    ensures Descending(cs)
    ensures forall i :: 0 <= i < |counts| ==> (counts[i] in cs <==> good[i])
    ensures forall c :: c in cs ==> c in counts
  {
    cs := [];
    for i := 0 to |counts|
      invariant Descending(cs)
      invariant forall c :: c in cs ==> c in counts[..i]
      invariant forall j :: 0 <= j < i ==> (counts[j] in cs <==> good[j])
    {
      assert counts[..i + 1] == counts[..i] + [counts[i]];
      assert forall c :: c in counts[..i] ==> Less(counts[i], c);
      if good[i] { cs := cs + [counts[i]]; }
    }
  }

  /** The rows a scan of the room visits. */
  ghost predicate AreRows(t: K.Table, short: U64, until: PduCount, rows: seq<K.Row>) {
    && (forall i :: 0 <= i < |rows| ==>
          IsRow(short, rows[i].key) && rows[i].key in t && rows[i].value == t[rows[i].key])
    && (forall i, j :: 0 <= i < j < |rows| ==> Less(CountOfId(rows[j].key).value, CountOfId(rows[i].key).value))
    && (forall c :: Usable(c) && PduId(short, c) in t && Visited(c, until) ==>
          exists i :: 0 <= i < |rows| && rows[i].key == PduId(short, c))
    && (forall i :: 0 <= i < |rows| ==> Visited(CountOfId(rows[i].key).value, until))
  }

  lemma ScanRows(t: K.Table, short: U64, until: PduCount, rows: seq<K.Row>)
    requires IsRoom(t, short)
    requires rows == K.Rows(t, K.PrefixKeysFrom(t, Be64(short), SeekKey(short, until), true))
    ensures AreRows(t, short, until, rows)
  {
    var ks := K.PrefixKeysFrom(t, Be64(short), SeekKey(short, until), true);
    forall i | 0 <= i < |rows|
      ensures IsRow(short, ks[i]) && rows[i] == K.Row(ks[i], t[ks[i]]) && Visited(CountOfId(ks[i]).value, until)
    {
      assert ks[i] in ks;
      InSeek(t, short, until, ks[i]);
    }
    forall i, j | 0 <= i < j < |rows| ensures Less(CountOfId(rows[j].key).value, CountOfId(rows[i].key).value) {
      RowsDescend(short, ks, i, j);
    }
    forall c | Usable(c) && PduId(short, c) in t && Visited(c, until)
      ensures exists i :: 0 <= i < |rows| && rows[i].key == PduId(short, c)
    {
      RowOf(short, c);
      InSeek(t, short, until, PduId(short, c));
      var i :| 0 <= i < |ks| && ks[i] == PduId(short, c);
      assert rows[i].key == PduId(short, c);
    }
  }

  function RowCounts(rows: seq<K.Row>): (cs: seq<PduCount>)
    requires forall i :: 0 <= i < |rows| ==> |rows[i].key| >= 16 && CountOfId(rows[i].key).Some?
    ensures |cs| == |rows| && forall i :: 0 <= i < |rows| ==> cs[i] == CountOfId(rows[i].key).value
  {
    seq(|rows|, i requires 0 <= i < |rows| => CountOfId(rows[i].key).value)
  }

  function RowsGood(rows: seq<K.Row>, good: Bytes -> bool): (gs: seq<bool>)
    ensures |gs| == |rows| && forall i :: 0 <= i < |rows| ==> gs[i] == good(rows[i].value)
  {
    seq(|rows|, i requires 0 <= i < |rows| => good(rows[i].value))
  }

  lemma CountsAreLog(t: K.Table, short: U64, until: PduCount, good: Bytes -> bool, rows: seq<K.Row>,
                     cs: seq<PduCount>, c: PduCount)
    requires IsRoom(t, short) && AreRows(t, short, until, rows)
    requires forall i :: 0 <= i < |rows| ==> (CountOfId(rows[i].key).value in cs <==> good(rows[i].value))
    requires forall x :: x in cs ==> x in RowCounts(rows)
    ensures c in cs <==> c in Log(t, short, good) && Visited(c, until)
  {
    InLog(t, short, good, c);
    if Usable(c) && PduId(short, c) in t && Visited(c, until) {
      var i :| 0 <= i < |rows| && rows[i].key == PduId(short, c);
      RowOf(short, c);
    }
  }

  method Reverse(cs: seq<PduCount>) returns (r: seq<PduCount>)
    ensures |r| == |cs| && forall i :: 0 <= i < |cs| ==> r[i] == cs[|cs| - 1 - i]
  {
    r := [];
    for i := 0 to |cs|
      invariant |r| == i && forall j :: 0 <= j < i ==> r[j] == cs[i - 1 - j]
    {
      r := [cs[i]] + r;
    }
  }

  /** Takes events newest first while they come after `since`, at most `limit` of them, and looks
      whether one more would have followed. */
  method TakeLast(cs: seq<PduCount>, since: PduCount, limit: nat, ghost log: set<PduCount>)
    returns (events: seq<PduCount>, limited: bool)
    requires Descending(cs) && forall c :: c in cs <==> c in log
    ensures Shows(log, since, limit, events, limited)
  {
    var i := 0;
    while i < |cs| && i < limit && Less(since, cs[i])
      invariant i <= |cs| && i <= limit && forall j :: 0 <= j < i ==> Less(since, cs[j])
    {
      i := i + 1;
    }
    events := Reverse(cs[..i]);
    limited := i < |cs| && Less(since, cs[i]);
    TakenShows(cs, since, limit, log, i, events);
  }

  lemma TakenShows(cs: seq<PduCount>, since: PduCount, limit: nat, log: set<PduCount>, i: nat, events: seq<PduCount>)
    requires Descending(cs) && forall c :: c in cs <==> c in log
    requires i <= |cs| && i <= limit && (forall j :: 0 <= j < i ==> Less(since, cs[j]))
    requires i < |cs| && Less(since, cs[i]) ==> i == limit
    requires |events| == i && forall j :: 0 <= j < i ==> events[j] == cs[i - 1 - j]
    ensures Shows(log, since, limit, events, i < |cs| && Less(since, cs[i]))
  {
    forall c ensures c in events <==> c in cs[..i] {
      if c in cs[..i] {
        var j :| 0 <= j < i && cs[j] == c;
        assert events[i - 1 - j] == c;
      }
    }
    forall c, x | c in events && x in log && Less(c, x) ensures x in events {
      var j :| 0 <= j < i && cs[j] == c;
      var k :| 0 <= k < |cs| && cs[k] == x;
      assert k < j;
    }
    forall x | x in log && Less(since, x) && x !in events ensures i < |cs| && Less(since, cs[i]) {
      var k :| 0 <= k < |cs| && cs[k] == x;
      assert x == cs[k] && k >= i;
    }
    if i < |cs| && Less(since, cs[i]) { assert cs[i] in log && cs[i] !in cs[..i]; }
  }

  class Timeline {
    const pduidPdu: K.KvTree
    const eventidPduid: K.KvTree
    const eventidOutlierpdu: K.KvTree
    const good: Bytes -> bool
    var lastCount: map<U64, PduCount>

    ghost predicate Distinct() {
      pduidPdu != eventidPduid && pduidPdu != eventidOutlierpdu && eventidPduid != eventidOutlierpdu
    }

    constructor (pduidPdu: K.KvTree, eventidPduid: K.KvTree, eventidOutlierpdu: K.KvTree, good: Bytes -> bool)
      requires pduidPdu != eventidPduid && pduidPdu != eventidOutlierpdu && eventidPduid != eventidOutlierpdu
      ensures Distinct() && this.pduidPdu == pduidPdu && this.eventidPduid == eventidPduid
      ensures this.eventidOutlierpdu == eventidOutlierpdu && this.good == good && lastCount == map[]
    {
      this.pduidPdu, this.eventidPduid, this.eventidOutlierpdu := pduidPdu, eventidPduid, eventidOutlierpdu;
      this.good, lastCount := good, map[];
    }

    ghost function Events(short: U64): set<PduCount>
      requires IsRoom(pduidPdu.table, short)
      reads this, pduidPdu
    {
      Log(pduidPdu.table, short, good)
    }

    /** The cached last position is right. */
    ghost predicate CacheIsLast(short: U64)
      requires IsRoom(pduidPdu.table, short)
      reads this, pduidPdu
    {
      short in lastCount ==> Greatest(Events(short), lastCount[short])
    }

    /** The events that the scan from before `until` visits, newest first. */
    method PdusUntil(short: U64, until: PduCount) returns (cs: seq<PduCount>)
      requires IsRoom(pduidPdu.table, short)
      ensures Descending(cs)
      ensures forall c :: c in cs <==> c in Events(short) && Visited(c, until)
      ensures until != Normal(0) && until != Normal(1) && until != Backfilled(U64_MAX) ==>
                forall c :: c in cs <==> c in Events(short) && Less(c, until)
      ensures until == Normal(0) ==> forall c :: c in cs <==> c in Events(short)
      ensures until == Normal(1) ==> cs == []
      ensures until == Backfilled(U64_MAX) ==> forall c :: c in cs <==> c in Events(short) && c == until
    {
      var rows := pduidPdu.IterWithin(Be64(short), SeekKey(short, until), true);
      ScanRows(pduidPdu.table, short, until, rows);
      cs := KeepGood(RowCounts(rows), RowsGood(rows, good));
      forall c ensures c in cs <==> c in Events(short) && Visited(c, until) {
        CountsAreLog(pduidPdu.table, short, until, good, rows, cs, c);
      }
      assert cs != [] ==> cs[0] in cs;
    }

    method PdusUntilMax(short: U64) returns (cs: seq<PduCount>)
      requires IsRoom(pduidPdu.table, short)
      ensures Descending(cs) && forall c :: c in cs <==> c in Events(short)
    {
      cs := PdusUntil(short, Normal(U64_MAX));
      forall c | c in Events(short) ensures Less(c, Normal(U64_MAX)) {
        InLog(pduidPdu.table, short, good, c);
      }
    }

    method LastTimelineCount(short: U64) returns (last: PduCount)
      requires IsRoom(pduidPdu.table, short)
      modifies this
      ensures old(short in lastCount) ==> last == old(lastCount[short]) && lastCount == old(lastCount)
      ensures old(short !in lastCount) ==> IsLast(Events(short), last)
      ensures old(short !in lastCount) ==>
                lastCount == if Events(short) == {} then old(lastCount) else old(lastCount)[short := last]
    {
      if short in lastCount {
        last := lastCount[short];
      } else {
        var cs := PdusUntilMax(short);
        if cs == [] {
          assert forall c :: c in Events(short) ==> c in cs;
          last := Normal(0);
        } else {
          assert cs[0] in cs;
          last := cs[0];
          lastCount := lastCount[short := last];
        }
      }
    }

    /** Exact whenever the cached position is, and in any case when it lies after `since`. */
    method LoadTimeline(short: U64, since: PduCount, limit: nat) returns (events: seq<PduCount>, limited: bool)
      requires IsRoom(pduidPdu.table, short)
      modifies this
      ensures old(CacheIsLast(short)) ==> CacheIsLast(short) && Shows(Events(short), since, limit, events, limited)
      ensures if old(short in lastCount) && !Less(since, old(lastCount[short])) then events == [] && !limited
              else Shows(Events(short), since, limit, events, limited)
      ensures forall c, x :: c in events && x in Events(short) && Less(c, x) ==> x in events
      ensures forall c :: c in events ==> c in Events(short) && Less(since, c)
      ensures Ascending(events) && |events| <= limit && (limited ==> |events| == limit)
    {
      var last := LastTimelineCount(short);
      if Less(since, last) {
        var cs := PdusUntilMax(short);
        events, limited := TakeLast(cs, since, limit, Events(short));
      } else {
        events, limited := [], false;
        if IsLast(Events(short), last) { EmptyShows(Events(short), since, limit, last); }
      }
    }

    /** The position an event id leads to. */
    ghost function PositionOf(event: Bytes): Option<PduCount>
      reads eventidPduid
    {
      if event in eventidPduid.table && |eventidPduid.table[event]| >= 16
      then CountOfId(eventidPduid.table[event]) else None
    }

    method PutPdu(short: U64, c: PduCount, json: Bytes)
      requires IsRoom(pduidPdu.table, short) && Usable(c) && good(json)
      modifies pduidPdu
      ensures pduidPdu.table == old(pduidPdu.table)[PduId(short, c) := json]
      ensures IsRoom(pduidPdu.table, short) && Events(short) == old(Events(short)) + {c}
      ensures forall room: U64 :: room != short && old(IsRoom(pduidPdu.table, room)) ==>
                IsRoom(pduidPdu.table, room) && Events(room) == old(Events(room))
    {
      InsertGrows(pduidPdu.table, short, c, json, good);
      forall room: U64 | room != short && IsRoom(pduidPdu.table, room)
        ensures IsRoom(pduidPdu.table[PduId(short, c) := json], room)
        ensures Log(pduidPdu.table[PduId(short, c) := json], room, good) == Log(pduidPdu.table, room, good)
      {
        InsertElsewhere(pduidPdu.table, short, c, json, good, room);
      }
      pduidPdu.Insert(PduId(short, c), json);
    }

    /** Makes the event id lead to its row; it is no outlier any more. */
    method LinkEvent(short: U64, c: PduCount, event: Bytes)
      requires Distinct() && short != 0 && Usable(c)
      modifies eventidPduid, eventidOutlierpdu
      ensures PositionOf(event) == Some(c)
      ensures eventidPduid.table == old(eventidPduid.table)[event := PduId(short, c)]
      ensures eventidOutlierpdu.table == old(eventidOutlierpdu.table) - {event}
    {
      RowOf(short, c);
      eventidPduid.Insert(event, PduId(short, c));
      eventidOutlierpdu.Remove(event);
    }

    /** Stores a new event, moves the cached position to it and makes its id lead to it. */
    method AppendPdu(short: U64, count: U64, event: Bytes, json: Bytes)
      requires Distinct() && IsRoom(pduidPdu.table, short) && 0 < count < U64_MAX && good(json)
      modifies this, pduidPdu, eventidPduid, eventidOutlierpdu
      ensures pduidPdu.table == old(pduidPdu.table)[PduId(short, Normal(count)) := json]
      ensures IsRoom(pduidPdu.table, short) && Events(short) == old(Events(short)) + {Normal(count)}
      ensures forall room: U64 :: room != short && old(IsRoom(pduidPdu.table, room)) ==>
                IsRoom(pduidPdu.table, room) && Events(room) == old(Events(room))
      ensures lastCount == old(lastCount)[short := Normal(count)]
      ensures (forall c :: c in old(Events(short)) ==> Less(c, Normal(count))) ==> CacheIsLast(short)
      ensures PositionOf(event) == Some(Normal(count))
      ensures eventidPduid.table == old(eventidPduid.table)[event := PduId(short, Normal(count))]
      ensures eventidOutlierpdu.table == old(eventidOutlierpdu.table) - {event}
    {
      PutPdu(short, Normal(count), json);
      lastCount := lastCount[short := Normal(count)];
      LinkEvent(short, Normal(count), event);
    }

    /** Stores a backfilled event; it goes before everything there is, so the cache stays right. */
    method PrependBackfillPdu(short: U64, count: U64, event: Bytes, json: Bytes)
      requires Distinct() && IsRoom(pduidPdu.table, short) && good(json)
      modifies pduidPdu, eventidPduid, eventidOutlierpdu
      ensures pduidPdu.table == old(pduidPdu.table)[PduId(short, Backfilled(count)) := json]
      ensures IsRoom(pduidPdu.table, short) && Events(short) == old(Events(short)) + {Backfilled(count)}
      ensures forall room: U64 :: room != short && old(IsRoom(pduidPdu.table, room)) ==>
                IsRoom(pduidPdu.table, room) && Events(room) == old(Events(room))
      ensures old(CacheIsLast(short)) && (forall c :: c in old(Events(short)) ==> c.n < count) ==> CacheIsLast(short)
      ensures (forall c :: c in old(Events(short)) ==> c.n < count) ==>
                forall c :: c in old(Events(short)) ==> Less(Backfilled(count), c)
      ensures PositionOf(event) == Some(Backfilled(count))
      ensures eventidPduid.table == old(eventidPduid.table)[event := PduId(short, Backfilled(count))]
      ensures eventidOutlierpdu.table == old(eventidOutlierpdu.table) - {event}
    {
      PutPdu(short, Backfilled(count), json);
      LinkEvent(short, Backfilled(count), event);
    }
  }
}
