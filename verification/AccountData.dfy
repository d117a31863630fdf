/** Account data: one tree holds every value under its room, user, write count and type, a second
    one points from room, user and type to the live entry of the first. */
module AccountData {
  import opened Bytes
  import opened KvTree
  import opened LiveIndex
  import opened Wrappers

  type RoomId = t: Text | t != [] witness [0x21]

  /** Where one piece of account data lives; no room means the user's global data. */
  datatype Slot = Slot(room: Option<RoomId>, user: Text, kind: Text)

  /** A request body: whether it has the two required fields, and its serialised form. */
  datatype Json = Json(hasType: bool, hasContent: bool, bytes: Bytes)

  function RoomPart(room: Option<RoomId>): Text {
    if room.Some? then room.value else []
  }

  function Prefix(room: Option<RoomId>, user: Text): Bytes {
    Pair(RoomPart(room), user)
  }

  function IndexKey(s: Slot): Bytes {
    Prefix(s.room, s.user) + s.kind
  }

  function DataKey(s: Slot, count: U64): Bytes {
    Prefix(s.room, s.user) + (Be64(count) + ([SEP] + s.kind))
  }

  lemma IndexKeyInjective(s: Slot, t: Slot)
    requires IndexKey(s) == IndexKey(t)
    ensures s == t
  {
    PairInjective(RoomPart(s.room), s.user, s.kind, RoomPart(t.room), t.user, t.kind);
  }

  lemma DataKeyInjective(s: Slot, c: U64, t: Slot, d: U64)
    requires DataKey(s, c) == DataKey(t, d)
    ensures s == t && c == d
  {
    var x, y := Be64(c) + ([SEP] + s.kind), Be64(d) + ([SEP] + t.kind);
    PairInjective(RoomPart(s.room), s.user, x, RoomPart(t.room), t.user, y);
    assert x[..8] == Be64(c) && y[..8] == Be64(d);
    assert x[9..] == s.kind && y[9..] == t.kind;
    Be64Injective(c, d);
  }

  lemma KindOfDataKey(s: Slot, c: U64)
    ensures AfterLast(DataKey(s, c)) == s.kind
  {
    AfterLastJoin(Prefix(s.room, s.user) + Be64(c), s.kind);
    assert DataKey(s, c) == Prefix(s.room, s.user) + Be64(c) + [SEP] + s.kind;
  }

  // ---------- the two trees against one map ----------

  lemma KeysInjective()
    ensures Injective(IndexKey) && Injective2(DataKey)
  {
    forall s, t | Clash(IndexKey, s, t) ensures s == t { IndexKeyInjective(s, t); }
    forall s, c, t, d | Clash2(DataKey, s, c, t, d) ensures s == t && c == d { DataKeyInjective(s, c, t, d); }
  }

  // ---------- reading changes back ----------

  /** What happened in a room or globally after `since`: the types written later, latest value. */
  function Changes(abs: map<Slot, Entry<Bytes>>, room: Option<RoomId>, user: Text, since: U64): map<Text, Bytes> {
    map s | s in abs && s.room == room && s.user == user && abs[s].count > since :: s.kind := abs[s].data
  }

  function Collect(rows: seq<Row>): (m: map<Text, Bytes>)
    ensures forall kind :: kind in m <==> exists i :: 0 <= i < |rows| && AfterLast(rows[i].key) == kind
  {
    if rows == [] then map[] else
      var n := |rows| - 1;
      var m := Collect(rows[..n])[AfterLast(rows[n].key) := rows[n].value];
      assert forall i :: 0 <= i < n ==> rows[..n][i] == rows[i];
      m
  }

  lemma {:induction false} CollectAt(rows: seq<Row>, i: nat)
    requires forall j, k :: 0 <= j < k < |rows| ==> AfterLast(rows[j].key) != AfterLast(rows[k].key)
    requires i < |rows|
    ensures AfterLast(rows[i].key) in Collect(rows) && Collect(rows)[AfterLast(rows[i].key)] == rows[i].value
  {
    var n := |rows| - 1;
    if i < n { CollectAt(rows[..n], i); }
  }

  lemma SlotInScan(room: Option<RoomId>, user: Text, since: U64, s: Slot, count: U64)
    requires since < U64_MAX
    ensures var p := Prefix(room, user);
      p <= DataKey(s, count) && After(p + Be64(since + 1), DataKey(s, count), false) <==>
      s.room == room && s.user == user && count > since
  {
    var p, rest := Prefix(room, user), [SEP] + s.kind;
    PairPrefix(RoomPart(room), user, RoomPart(s.room), s.user, Be64(count) + rest);
    CounterSeek(p, since + 1, count, rest);
  }

  ghost predicate Changed(abs: map<Slot, Entry<Bytes>>, room: Option<RoomId>, user: Text, since: U64, s: Slot) {
    s in abs && s.room == room && s.user == user && abs[s].count > since
  }

  /** The scan visits exactly the live entries of the room and user written after `since`. */
  lemma ScanVisits(abs: map<Slot, Entry<Bytes>>, data: Table, room: Option<RoomId>, user: Text, since: U64, k: Bytes)
    requires Stored(DataKey, abs, data) && since < U64_MAX
    ensures var p := Prefix(room, user);
      k in PrefixKeysFrom(data, p, p + Be64(since + 1), false) <==>
      exists s :: Changed(abs, room, user, since, s) && k == DataKey(s, abs[s].count)
  {
    forall s | s in abs { SlotInScan(room, user, since, s, abs[s].count); }
  }

  /** The rows of a scan and the slots they are live for. */
  ghost predicate LiveRows(abs: map<Slot, Entry<Bytes>>, room: Option<RoomId>, user: Text, since: U64,
                           rows: seq<Row>, slots: seq<Slot>) {
    && |slots| == |rows|
    && (forall i :: 0 <= i < |rows| ==>
          Changed(abs, room, user, since, slots[i]) && rows[i].value == abs[slots[i]].data
          && AfterLast(rows[i].key) == slots[i].kind)
    && (forall i, j :: 0 <= i < j < |rows| ==> slots[i] != slots[j])
    && (forall s :: Changed(abs, room, user, since, s) ==> s in slots)
  }

  lemma LiveRowsCollected(abs: map<Slot, Entry<Bytes>>, room: Option<RoomId>, user: Text, since: U64,
                          rows: seq<Row>, slots: seq<Slot>)
    requires LiveRows(abs, room, user, since, rows, slots)
    ensures Collect(rows) == Changes(abs, room, user, since)
  {
    hide AfterLast;
    var want := Changes(abs, room, user, since);
    forall i, j | 0 <= i < j < |rows| ensures AfterLast(rows[i].key) != AfterLast(rows[j].key) {
      assert slots[i] != slots[j];
    }
    forall kind | kind in want ensures kind in Collect(rows) && Collect(rows)[kind] == want[kind] {
      var s := Slot(room, user, kind);
      assert Changed(abs, room, user, since, s);
      var i :| 0 <= i < |slots| && slots[i] == s;
      CollectAt(rows, i);
    }
    forall kind | kind in Collect(rows) ensures kind in want {
      var i :| 0 <= i < |rows| && AfterLast(rows[i].key) == kind;
      assert slots[i] == Slot(room, user, kind);
    }
  }

  /** One witness for each element. */
  lemma {:induction false} Choose<K, S(!new)>(ks: seq<K>, rel: (K, S) -> bool) returns (ss: seq<S>)
    requires forall k :: k in ks ==> exists s :: rel(k, s)
    ensures |ss| == |ks| && forall i :: 0 <= i < |ks| ==> rel(ks[i], ss[i])
  {
    if ks == [] {
      ss := [];
    } else {
      assert ks[0] in ks;
      var s :| rel(ks[0], s);
      assert forall k :: k in ks[1..] ==> k in ks;
      var rest := Choose(ks[1..], rel);
      ss := [s] + rest;
    }
  }

  ghost predicate LiveFor(abs: map<Slot, Entry<Bytes>>, data: Table, room: Option<RoomId>, user: Text, since: U64,
                          k: Bytes, s: Slot) {
    && Changed(abs, room, user, since, s) && k == DataKey(s, abs[s].count)
    && k in data && data[k] == abs[s].data && AfterLast(k) == s.kind
  }

  lemma KeyIsLive(abs: map<Slot, Entry<Bytes>>, data: Table, room: Option<RoomId>, user: Text, since: U64, k: Bytes)
    requires Stored(DataKey, abs, data) && since < U64_MAX
    requires k in PrefixKeysFrom(data, Prefix(room, user), Prefix(room, user) + Be64(since + 1), false)
    ensures exists s :: LiveFor(abs, data, room, user, since, k, s)
  {
    ScanVisits(abs, data, room, user, since, k);
    var s :| Changed(abs, room, user, since, s) && k == DataKey(s, abs[s].count);
    KindOfDataKey(s, abs[s].count);
    assert LiveFor(abs, data, room, user, since, k, s);
  }

  ghost predicate AllLive(abs: map<Slot, Entry<Bytes>>, data: Table, room: Option<RoomId>, user: Text, since: U64,
                          ks: seq<Bytes>, slots: seq<Slot>) {
    |slots| == |ks| && forall i :: 0 <= i < |ks| ==> LiveFor(abs, data, room, user, since, ks[i], slots[i])
  }

  lemma SlotsOfScan(abs: map<Slot, Entry<Bytes>>, data: Table, room: Option<RoomId>, user: Text, since: U64,
                    ks: seq<Bytes>)
    returns (slots: seq<Slot>)
    requires forall k :: k in ks ==> exists s :: LiveFor(abs, data, room, user, since, k, s)
    ensures AllLive(abs, data, room, user, since, ks, slots)
  {
    var live := (k, s) => LiveFor(abs, data, room, user, since, k, s);
    forall k | k in ks ensures exists s :: live(k, s) {
      var s :| LiveFor(abs, data, room, user, since, k, s);
      assert live(k, s);
    }
    slots := Choose(ks, live);
    forall i | 0 <= i < |ks| ensures LiveFor(abs, data, room, user, since, ks[i], slots[i]) {
      assert live(ks[i], slots[i]);
    }
  }

  lemma SlotIsScanned(abs: map<Slot, Entry<Bytes>>, data: Table, room: Option<RoomId>, user: Text, since: U64,
                      ks: seq<Bytes>, slots: seq<Slot>, s: Slot)
    requires AllLive(abs, data, room, user, since, ks, slots) && Changed(abs, room, user, since, s)
    requires DataKey(s, abs[s].count) in ks
    ensures s in slots
  {
    var i :| 0 <= i < |ks| && ks[i] == DataKey(s, abs[s].count);
    assert LiveFor(abs, data, room, user, since, ks[i], slots[i]);
    DataKeyInjective(s, abs[s].count, slots[i], abs[slots[i]].count);
  }

  /** The scan after `since` finds exactly the live entries written later. */
  lemma ScanIsLive(abs: map<Slot, Entry<Bytes>>, data: Table, room: Option<RoomId>, user: Text, since: U64)
    returns (slots: seq<Slot>)
    requires Stored(DataKey, abs, data) && since < U64_MAX
    ensures var p := Prefix(room, user);
      LiveRows(abs, room, user, since, Rows(data, PrefixKeysFrom(data, p, p + Be64(since + 1), false)), slots)
  {
    var p := Prefix(room, user);
    var ks := PrefixKeysFrom(data, p, p + Be64(since + 1), false);
    forall k | k in ks ensures exists s :: LiveFor(abs, data, room, user, since, k, s) {
      KeyIsLive(abs, data, room, user, since, k);
    }
    slots := SlotsOfScan(abs, data, room, user, since, ks);
    forall s | Changed(abs, room, user, since, s) ensures s in slots {
      ScanVisits(abs, data, room, user, since, DataKey(s, abs[s].count));
      SlotIsScanned(abs, data, room, user, since, ks, slots, s);
    }
    LiveRowsOrdered(abs, data, room, user, since, ks, slots);
  }

  /** Collected, they are exactly the types written later, with their latest values. */
  lemma ChangesExact(abs: map<Slot, Entry<Bytes>>, data: Table, room: Option<RoomId>, user: Text, since: U64)
    requires Stored(DataKey, abs, data) && since < U64_MAX
    ensures var p := Prefix(room, user);
      Collect(Rows(data, PrefixKeysFrom(data, p, p + Be64(since + 1), false))) == Changes(abs, room, user, since)
  {
    var p := Prefix(room, user);
    var slots := ScanIsLive(abs, data, room, user, since);
    LiveRowsCollected(abs, room, user, since, Rows(data, PrefixKeysFrom(data, p, p + Be64(since + 1), false)), slots);
  }

  /** A row whose type or value cannot be read belongs to a change that cannot be read. */
  lemma BadRowIsBadChange(readable: (Text, Bytes) -> bool, abs: map<Slot, Entry<Bytes>>, room: Option<RoomId>,
                          user: Text, since: U64, rows: seq<Row>, slots: seq<Slot>)
    requires LiveRows(abs, room, user, since, rows, slots)
    ensures (forall i :: 0 <= i < |rows| ==> readable(AfterLast(rows[i].key), rows[i].value)) <==>
            AllReadable(readable, Changes(abs, room, user, since))
  {
    hide AfterLast;
    var changes := Changes(abs, room, user, since);
    forall i | 0 <= i < |rows| ensures slots[i].kind in changes && changes[slots[i].kind] == rows[i].value {
      ChangesAt(abs, room, user, since, slots[i].kind);
    }
    if forall i :: 0 <= i < |rows| ==> readable(AfterLast(rows[i].key), rows[i].value) {
      forall kind | kind in changes ensures readable(kind, changes[kind]) {
        ChangesAt(abs, room, user, since, kind);
        var i :| 0 <= i < |slots| && slots[i] == Slot(room, user, kind);
        assert readable(AfterLast(rows[i].key), rows[i].value);
      }
    }
  }

  ghost predicate AllReadable(readable: (Text, Bytes) -> bool, changes: map<Text, Bytes>) {
    forall kind :: kind in changes ==> readable(kind, changes[kind])
  }

  lemma LiveRowsOrdered(abs: map<Slot, Entry<Bytes>>, data: Table, room: Option<RoomId>, user: Text, since: U64,
                        ks: seq<Bytes>, slots: seq<Slot>)
    requires Ordered(ks, false) && (forall k :: k in ks ==> k in data)
    requires AllLive(abs, data, room, user, since, ks, slots)
    requires forall s :: Changed(abs, room, user, since, s) ==> s in slots
    ensures LiveRows(abs, room, user, since, Rows(data, ks), slots)
  {
    forall i | 0 <= i < |ks|
      ensures Changed(abs, room, user, since, slots[i]) && data[ks[i]] == abs[slots[i]].data
              && AfterLast(ks[i]) == slots[i].kind
    {
      assert LiveFor(abs, data, room, user, since, ks[i], slots[i]);
    }
    forall i, j | 0 <= i < j < |ks| ensures slots[i] != slots[j] {
      assert LiveFor(abs, data, room, user, since, ks[i], slots[i]);
      assert LiveFor(abs, data, room, user, since, ks[j], slots[j]);
      assert ks[i] != ks[j];
    }
  }

  // ---------- whole runs ----------

  function Request(slot: Slot, count: U64, body: Json): Write<Slot, Bytes> {
    Write(slot, count, body.hasType && body.hasContent, body.bytes)
  }

  ghost function Updated(db: Db<Bytes, Bytes>, w: Write<Slot, Bytes>): Db<Bytes, Bytes> {
    Update(IndexKey, DataKey, db, w)
  }

  lemma UpdatedKeeps(abs: map<Slot, Entry<Bytes>>, db: Db<Bytes, Bytes>, w: Write<Slot, Bytes>, after: Db<Bytes, Bytes>)
    requires Refines(IndexKey, DataKey, abs, db) && db.count < w.count && after == Updated(db, w)
    ensures Refines(IndexKey, DataKey, AbsUpdate(abs, w), after)
  {
    KeysInjective();
    UpdateRefines(IndexKey, DataKey, abs, db, w);
  }

  /** After any sequence of updates, refused ones included and with any positions in between taken
      elsewhere, a slot reads back as last written. */
  lemma GetIsLastWrite(ws: seq<Write<Slot, Bytes>>, slot: Slot)
    requires Increasing(ws)
    ensures GetFrom(IndexKey, RunDb(IndexKey, DataKey, ws), slot) ==
            match LastWrite(ws, slot) case Some(i) => Some(ws[i].value) case None => None
  {
    KeysInjective();
    GetReturnsLastWrite(IndexKey, DataKey, ws, slot);
  }

  /** The scan that reads the changes of a room or of the global data since a position. */
  function ScanChanges(data: Table, room: Option<RoomId>, user: Text, since: U64): map<Text, Bytes>
    requires since < U64_MAX
  {
    var p := Prefix(room, user);
    Collect(Rows(data, PrefixKeysFrom(data, p, p + Be64(since + 1), false)))
  }

  lemma ChangesAt(abs: map<Slot, Entry<Bytes>>, room: Option<RoomId>, user: Text, since: U64, kind: Text)
    ensures kind in Changes(abs, room, user, since) <==> Changed(abs, room, user, since, Slot(room, user, kind))
    ensures kind in Changes(abs, room, user, since) ==>
              Changes(abs, room, user, since)[kind] == abs[Slot(room, user, kind)].data
  {
  }

  /** After any sequence of updates, the changes since a position are exactly the types whose last
      accepted write took a position after it, with the value of that write. */
  lemma ChangesAreLastWrites(ws: seq<Write<Slot, Bytes>>, room: Option<RoomId>, user: Text, since: U64, kind: Text)
    requires Increasing(ws) && since < U64_MAX
    ensures var got := ScanChanges(RunDb(IndexKey, DataKey, ws).data, room, user, since);
      var last := LastWrite(ws, Slot(room, user, kind));
      && (kind in got <==> last.Some? && ws[last.value].count > since)
      && (kind in got ==> got[kind] == ws[last.value].value)
  {
    hide Indexed, Stored, Injective, Injective2, IndexKey, DataKey, Changes;
    var slot := Slot(room, user, kind);
    KeysInjective();
    var abs := RunRefines(IndexKey, DataKey, ws);
    var data := RunDb(IndexKey, DataKey, ws).data;
    assert ScanChanges(data, room, user, since) == Changes(abs, room, user, since) by {
      ChangesExact(abs, data, room, user, since);
    }
    assert slot in abs <==> LastWrite(ws, slot).Some?;
    ChangesAt(abs, room, user, since, kind);
  }

  // ---------- the store ----------

  class AccountData {
    const index: KvTree  // room, user and type to the key of the live entry
    const data: KvTree      // room, user, count and type to the value
    const globals: Globals
    const readable: (Text, Bytes) -> bool  // whether a stored type and value can be read back
    ghost var abs: map<Slot, Entry<Bytes>>

    ghost predicate Valid()
      reads this, index, data, globals.global
    {
      && index != data && index != globals.global && data != globals.global
      && CountOf(globals.global.table).Some?
      && Refines(IndexKey, DataKey, abs, Trees())
    }

    ghost function Trees(): Db<Bytes, Bytes>
      requires CountOf(globals.global.table).Some?
      reads this, index, data, globals.global
    {
      Db(index.table, data.table, CountOf(globals.global.table).value)
    }

    constructor (index: KvTree, data: KvTree, globals: Globals, readable: (Text, Bytes) -> bool)
      requires index != data && index != globals.global && data != globals.global
      requires index.table == map[] && data.table == map[] && CountOf(globals.global.table).Some?
      ensures Valid() && abs == map[]
      ensures this.index == index && this.data == data && this.globals == globals && this.readable == readable
    {
      this.index, this.data, this.globals, this.readable := index, data, globals, readable;
      abs := map[];
    }

    method Update(room: Option<RoomId>, user: Text, kind: Text, body: Json) returns (r: Result<(), string>)
      requires Valid() && Trees().count < U64_MAX
      modifies this, index, data, globals.global
      ensures Valid() && Trees().count == old(Trees()).count + 1
      ensures r.Ok? <==> body.hasType && body.hasContent
      ensures r.Ok? ==> abs == old(abs)[Slot(room, user, kind) := Entry(Trees().count, body.bytes)]
      ensures r.Ok? ==> GetFrom(IndexKey, Trees(), Slot(room, user, kind)) == Some(body.bytes)
      ensures r.Err? ==> abs == old(abs) && index.table == old(index.table) && data.table == old(data.table)
    {
      hide Indexed, Stored, Older, CountOf;
      ghost var before := Trees();
      ghost var was := abs;
      var count := globals.NextCount();
      ghost var w := Request(Slot(room, user, kind), count, body);
      abs := AbsUpdate(abs, w);
      var prefix := Prefix(room, user);
      var roomuserdataid := prefix + (Be64(count) + ([SEP] + kind));
      if !body.hasType || !body.hasContent {
        UpdatedKeeps(was, before, w, Trees());
        return Err("Account data doesn't have all required fields.");
      }
      Replace(prefix + kind, roomuserdataid, body.bytes);
      UpdatedKeeps(was, before, w, Trees());
      KeysInjective();
      GetFromIs(IndexKey, DataKey, abs, Trees(), Slot(room, user, kind));
      return Ok(());
    }

    /** What the rest of the server does with the counter leaves the store as it is. */
    twostate lemma CounterMovedElsewhere()
      requires old(Valid()) && CountOf(globals.global.table).Some?
      requires unchanged(this) && unchanged(index) && unchanged(data)
      requires old(CountOf(globals.global.table)).value <= CountOf(globals.global.table).value
      ensures Valid()
    {
      LaterRefines(IndexKey, DataKey, abs, old(Trees()), CountOf(globals.global.table).value);
    }

    /** Writes the new entry, makes the index name it and removes the entry it named before. */
    method Replace(key: Bytes, roomuserdataid: Bytes, value: Bytes)
      requires index != data && index != globals.global && data != globals.global
      modifies index, data
      ensures index.table == old(index.table)[key := roomuserdataid]
      ensures data.table == Written(old(data.table), roomuserdataid, value,
                                    if key in old(index.table) then {old(index.table)[key]} else {})
    {
      data.Insert(roomuserdataid, value);
      var prev := index.Get(key);
      index.Insert(key, roomuserdataid);
      if prev.Some? {
        data.Remove(prev.value);
      }
    }

    method Get(room: Option<RoomId>, user: Text, kind: Text) returns (r: Result<Option<Bytes>, string>)
      requires Valid()
      ensures var s := Slot(room, user, kind);
        && (r.Err? <==> s in abs && !readable(kind, abs[s].data))
        && (r.Ok? ==> r.value == if s in abs then Some(abs[s].data) else None)
    {
      KeysInjective();
      GetFromIs(IndexKey, DataKey, abs, Trees(), Slot(room, user, kind));
      var roomuserdataid := index.Get(Prefix(room, user) + kind);
      if roomuserdataid.None? {
        return Ok(None);
      }
      var value := data.Get(roomuserdataid.value);
      if value.Some? && !readable(kind, value.value) {
        return Err("could not deserialize");
      }
      return Ok(value);
    }

    method ChangesSince(room: Option<RoomId>, user: Text, since: U64) returns (r: Result<map<Text, Bytes>, string>)
      requires Valid() && since < U64_MAX
      ensures r.Ok? <==> AllReadable(readable, Changes(abs, room, user, since))
      ensures r.Ok? ==> r.value == Changes(abs, room, user, since)
    {
      hide Indexed, Changes, Collect, AfterLast, AllReadable, LiveRows;
      var prefix := Prefix(room, user);
      var rows := data.IterWithin(prefix, prefix + Be64(since + 1), false);
      r := CollectRows(readable, rows);
      ChangesExact(abs, data.table, room, user, since);
      ghost var slots := ScanIsLive(abs, data.table, room, user, since);
      BadRowIsBadChange(readable, abs, room, user, since, rows, slots);
    }
  }

  method CollectRows(readable: (Text, Bytes) -> bool, rows: seq<Row>) returns (r: Result<map<Text, Bytes>, string>)
    ensures r.Ok? <==> forall i :: 0 <= i < |rows| ==> readable(AfterLast(rows[i].key), rows[i].value)
    ensures r.Ok? ==> r.value == Collect(rows)
  {
    hide AfterLast;
    var userdata := map[];
    for i := 0 to |rows|
      invariant userdata == Collect(rows[..i])
      invariant forall j :: 0 <= j < i ==> readable(AfterLast(rows[j].key), rows[j].value)
    {
      assert rows[..i + 1][..i] == rows[..i];
      if !readable(AfterLast(rows[i].key), rows[i].value) {
        return Err("Database contains invalid account data.");
      }
      userdata := userdata[AfterLast(rows[i].key) := rows[i].value];
    }
    assert rows[..|rows|] == rows;
    return Ok(userdata);
  }
}
