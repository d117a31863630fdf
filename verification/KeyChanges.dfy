/** The log of device-key changes: each change is filed under the user and under every encrypted
    room they are in, with one count for all of them. */
module KeyChanges {
  import opened Bytes
  import opened KvTree
  import opened CounterLog
  import opened Wrappers

  function Prefix(id: Text): Bytes {
    id + [SEP]
  }

  function ChangeKey(id: Text, count: U64): Bytes {
    Key(Prefix(id), count)
  }

  ghost predicate Keyed(t: Table) {
    forall k :: k in t ==> exists id: Text, c: U64 :: k == ChangeKey(id, c)
  }

  lemma ChangeKeyPrefix(id: Text, other: Text, c: U64)
    ensures Prefix(id) <= ChangeKey(other, c) <==> id == other
    ensures SplitOnce(ChangeKey(other, c)) == (other, Some(Be64(c)))
  {
    assert Prefix(id) == id + [SEP] + [];
    PartPrefix(other, Be64(c), id, []);
    SplitOnceJoin(other, Be64(c));
  }

  lemma ChangeKeyInjective(id: Text, c: U64, other: Text, d: U64)
    requires ChangeKey(id, c) == ChangeKey(other, d)
    ensures id == other && c == d
  {
    ChangeKeyPrefix(id, id, c);
    ChangeKeyPrefix(other, other, d);
    Be64Injective(c, d);
  }

  lemma KeyedIsLog(t: Table, id: Text)
    requires Keyed(t)
    ensures IsLog(t, Prefix(id))
  {
    forall k | k in t && Prefix(id) <= k ensures |k| == |Prefix(id)| + 8 {
      var other: Text, c: U64 :| k == ChangeKey(other, c);
      ChangeKeyPrefix(id, other, c);
    }
  }

  // ---------- marking ----------

  /** The table after filing one change under each of `ids`. */
  function MarkAll(t: Table, ids: seq<Text>, count: U64, user: Text): Table {
    if ids == [] then t
    else MarkAll(t, ids[..|ids| - 1], count, user)[ChangeKey(ids[|ids| - 1], count) := user]
  }

  lemma {:induction false} MarkAllHas(t: Table, ids: seq<Text>, count: U64, user: Text, id: Text, c: U64)
    ensures var k, t' := ChangeKey(id, c), MarkAll(t, ids, count, user);
      && (k in t' <==> k in t || (c == count && id in ids))
      && (k in t' ==> t'[k] == if c == count && id in ids then user else t[k])
  {
    if ids != [] {
      var n := |ids| - 1;
      var k, last := ChangeKey(id, c), ChangeKey(ids[n], count);
      MarkAllHas(t, ids[..n], count, user, id, c);
      assert MarkAll(t, ids, count, user) == MarkAll(t, ids[..n], count, user)[last := user];
      assert k == last ==> id == ids[n] && c == count by {
        if k == last { ChangeKeyInjective(id, c, ids[n], count); }
      }
      assert ids == ids[..n] + [ids[n]];
    }
  }

  lemma {:induction false} MarkAllKeyed(t: Table, ids: seq<Text>, count: U64, user: Text)
    requires Keyed(t)
    ensures Keyed(MarkAll(t, ids, count, user))
  {
    if ids != [] { MarkAllKeyed(t, ids[..|ids| - 1], count, user); }
  }

  // ---------- whole runs ----------

  /** One change: who, under which rooms, and the position it was given. */
  datatype Mark = Mark(count: U64, user: Text, rooms: seq<Text>)

  predicate FiledUnder(m: Mark, id: Text) {
    id in m.rooms || id == m.user
  }

  function RunTable(ms: seq<Mark>): Table {
    if ms == [] then map[]
    else
      var m := ms[|ms| - 1];
      MarkAll(RunTable(ms[..|ms| - 1]), m.rooms + [m.user], m.count, m.user)
  }

  /** Positions are handed out in order and never twice. */
  ghost predicate Increasing(ms: seq<Mark>) {
    forall i, j :: 0 <= i < j < |ms| ==> ms[i].count < ms[j].count
  }

  lemma RunTableSnoc(ms: seq<Mark>, m: Mark)
    ensures RunTable(ms + [m]) == MarkAll(RunTable(ms), m.rooms + [m.user], m.count, m.user)
  {
    assert (ms + [m])[..|ms|] == ms;
  }

  lemma {:induction false} RunTableKeyed(ms: seq<Mark>)
    ensures Keyed(RunTable(ms))
  {
    if ms != [] {
      var m := ms[|ms| - 1];
      RunTableKeyed(ms[..|ms| - 1]);
      MarkAllKeyed(RunTable(ms[..|ms| - 1]), m.rooms + [m.user], m.count, m.user);
    }
  }

  /** The table of a run holds, under each id, exactly the changes filed there. */
  lemma {:induction false} RunTableHas(ms: seq<Mark>, id: Text, c: U64)
    requires Increasing(ms)
    ensures ChangeKey(id, c) in RunTable(ms) <==> exists i :: 0 <= i < |ms| && ms[i].count == c && FiledUnder(ms[i], id)
    ensures forall i :: 0 <= i < |ms| && ms[i].count == c && FiledUnder(ms[i], id) ==>
              ChangeKey(id, c) in RunTable(ms) && RunTable(ms)[ChangeKey(id, c)] == ms[i].user
  {
    if ms != [] {
      var n := |ms| - 1;
      RunTableHas(ms[..n], id, c);
      MarkAllHas(RunTable(ms[..n]), ms[n].rooms + [ms[n].user], ms[n].count, ms[n].user, id, c);
      assert id in ms[n].rooms + [ms[n].user] <==> FiledUnder(ms[n], id);
      assert forall i :: 0 <= i < n ==> ms[..n][i] == ms[i];
      if ChangeKey(id, c) in RunTable(ms[..n]) {
        var i :| 0 <= i < n && ms[..n][i].count == c && FiledUnder(ms[..n][i], id);
        assert ms[i].count == c && FiledUnder(ms[i], id);
      }
    }
  }

  // ---------- reading ----------

  /** The counts a reader of `(from, to]` should see under `id`, in order. */
  ghost predicate InRange(t: Table, id: Text, from: U64, to: U64, counts: seq<U64>) {
    && Strictly(counts, false)
    && (forall c: U64 :: c in counts <==> ChangeKey(id, c) in t && from < c <= to)
  }

  ghost predicate Values(t: Table, id: Text, counts: seq<U64>, users: seq<Bytes>) {
    |users| == |counts| && forall i :: 0 <= i < |users| ==>
      ChangeKey(id, counts[i]) in t && users[i] == t[ChangeKey(id, counts[i])]
  }

  /** Exactly the users marked under `id` with counts in `(from, to]`, in the order of the marks. */
  ghost predicate IsReport(t: Table, id: Text, from: U64, to: U64, users: seq<Bytes>) {
    exists counts: seq<U64> :: InRange(t, id, from, to, counts) && Values(t, id, counts, users)
  }

  /** A change of the user in `(from, to]` was filed under `id`. */
  ghost predicate Marked(ms: seq<Mark>, id: Text, from: U64, to: U64, user: Bytes) {
    exists j :: 0 <= j < |ms| && from < ms[j].count <= to && FiledUnder(ms[j], id) && ms[j].user == user
  }

  /** `marks` is the history of changes. */
  class KeyChanges {
    const keychangeid_userid: KvTree
    const globals: Globals
    const isUser: Bytes -> bool  // whether stored bytes are a user id
    ghost var marks: seq<Mark>

    ghost predicate Valid()
      reads this, keychangeid_userid, globals.global
    {
      && keychangeid_userid != globals.global && keychangeid_userid.table == RunTable(marks)
      && CountOf(globals.global.table).Some? && Increasing(marks)
      && forall i :: 0 <= i < |marks| ==> marks[i].count <= CountOf(globals.global.table).value && isUser(marks[i].user)
    }

    constructor (tree: KvTree, globals: Globals, isUser: Bytes -> bool)
      requires tree != globals.global && tree.table == map[] && CountOf(globals.global.table).Some?
      ensures Valid() && marks == []
      ensures keychangeid_userid == tree && this.globals == globals && this.isUser == isUser
    {
      keychangeid_userid, this.globals, this.isUser, marks := tree, globals, isUser, [];
    }

    /** `encryptedRooms` are the joined rooms that have encryption switched on. */
    method MarkDeviceKeyUpdate(user: Text, encryptedRooms: seq<Text>)
      requires Valid() && CountOf(globals.global.table) != Some(U64_MAX) && isUser(user)
      modifies this, keychangeid_userid, globals.global
      ensures Valid() && CountOf(globals.global.table) == Some(old(CountOf(globals.global.table)).value + 1)
      ensures marks == old(marks) + [Mark(CountOf(globals.global.table).value, user, encryptedRooms)]
      ensures forall id: Text, c: U64 ::
                Lookup(keychangeid_userid.table, ChangeKey(id, c)) ==
                if c == CountOf(globals.global.table).value && (id in encryptedRooms || id == user) then Some(user)
                else Lookup(old(keychangeid_userid.table), ChangeKey(id, c))
    {
      hide RunTable, CountOf, MarkAll, ChangeKey;
      ghost var before := marks;
      var count := globals.NextCount();
      File(count, user, encryptedRooms);
      forall id: Text, c: U64
        ensures Lookup(keychangeid_userid.table, ChangeKey(id, c)) ==
                if c == count && (id in encryptedRooms || id == user) then Some(user)
                else Lookup(old(keychangeid_userid.table), ChangeKey(id, c))
      {
        MarkAllHas(old(keychangeid_userid.table), encryptedRooms + [user], count, user, id, c);
      }
      marks := marks + [Mark(count, user, encryptedRooms)];
      RunTableSnoc(before, Mark(count, user, encryptedRooms));
    }

    method File(count: U64, user: Text, encryptedRooms: seq<Text>)
      modifies keychangeid_userid
      ensures keychangeid_userid.table == MarkAll(old(keychangeid_userid.table), encryptedRooms + [user], count, user)
    {
      ghost var t := keychangeid_userid.table;
      for i := 0 to |encryptedRooms|
        invariant keychangeid_userid.table == MarkAll(t, encryptedRooms[..i], count, user)
      {
        assert encryptedRooms[..i + 1][..i] == encryptedRooms[..i];
        keychangeid_userid.Insert(encryptedRooms[i] + [SEP] + Be64(count), user);
      }
      keychangeid_userid.Insert(user + [SEP] + Be64(count), user);
      assert encryptedRooms[..|encryptedRooms|] == encryptedRooms == (encryptedRooms + [user])[..|encryptedRooms|];
    }

    /** After every run of changes, exactly the users with a change in the range filed under the id,
        in the order of the changes; none of them fails to parse. */
    method KeysChanged(id: Text, from: U64, to: Option<U64>) returns (users: seq<Result<Bytes, string>>)
      requires Valid() && from < U64_MAX
      ensures forall i :: 0 <= i < |users| ==> users[i].Ok?
      ensures IsReport(RunTable(marks), id, from, if to.Some? then to.value else U64_MAX, Oks(users))
      ensures forall user :: Ok(user) in users <==>
                Marked(marks, id, from, if to.Some? then to.value else U64_MAX, user)
    {
      hide RunTable, Marked, ParsedCount, Oks;
      RunTableKeyed(marks);
      var prefix := id + [SEP];
      var limit := if to.Some? then to.value else U64_MAX;
      var rows := keychangeid_userid.IterWithin(prefix, prefix + Be64(from + 1), false);
      var values := TakeUpTo(rows, limit);
      ghost var counts := RangeRead(keychangeid_userid.table, id, from, limit, rows, values);
      users := ParseUsers(isUser, values);
      assert IsReport(RunTable(marks), id, from, limit, values);
      ParsedReport(isUser, marks, id, from, limit, values, users);
    }
  }

  function Oks(items: seq<Result<Bytes, string>>): (values: seq<Bytes>)
    requires forall i :: 0 <= i < |items| ==> items[i].Ok?
    ensures |values| == |items| && forall i :: 0 <= i < |items| ==> values[i] == items[i].value
  {
    seq(|items|, i requires 0 <= i < |items| => items[i].value)
  }

  function ParseUser(isUser: Bytes -> bool, value: Bytes): Result<Bytes, string> {
    if isUser(value) then Ok(value) else Err("User ID in devicekeychangeid_userid is invalid.")
  }

  method ParseUsers(isUser: Bytes -> bool, values: seq<Bytes>) returns (users: seq<Result<Bytes, string>>)
    ensures |users| == |values|
    ensures forall i :: 0 <= i < |values| ==>
              users[i] == ParseUser(isUser, values[i])
  {
    users := [];
    for i := 0 to |values|
      invariant |users| == i
      invariant forall j :: 0 <= j < i ==>
        users[j] == ParseUser(isUser, values[j])
    {
      users := users + [ParseUser(isUser, values[i])];
    }
  }

  /** The count in a key, read after its first separator. */
  function ParsedCount(k: Bytes): Option<U64> {
    var rest := SplitOnce(k).1;
    if rest.Some? then U64FromBytes(rest.value) else None
  }

  /** Values are taken while their key holds a count up to the limit. */
  method TakeUpTo(rows: seq<Row>, limit: U64) returns (values: seq<Bytes>)
    ensures |values| <= |rows|
    ensures forall i :: 0 <= i < |values| ==>
              values[i] == rows[i].value && ParsedCount(rows[i].key).Some? && ParsedCount(rows[i].key).value <= limit
    ensures |values| < |rows| ==>
              var c := ParsedCount(rows[|values|].key); c.None? || c.value > limit
  {
    values := [];
    while |values| < |rows|
      invariant |values| <= |rows|
      invariant forall i :: 0 <= i < |values| ==>
                  values[i] == rows[i].value
                  && ParsedCount(rows[i].key).Some? && ParsedCount(rows[i].key).value <= limit
    {
      var current := ParsedCount(rows[|values|].key);
      if current.None? || current.value > limit {
        return;
      }
      values := values + [rows[|values|].value];
    }
  }

  lemma ParsedCountOf(id: Text, c: U64)
    ensures ParsedCount(ChangeKey(id, c)) == Some(c)
  {
    ChangeKeyPrefix(id, id, c);
    U64RoundTrip(c);
  }

  lemma RowsParsed(t: Table, id: Text, ks: seq<Bytes>, cs: seq<U64>)
    requires KeysOf(ks, Prefix(id), cs) && forall k :: k in ks ==> k in t
    ensures forall i :: 0 <= i < |ks| ==>
              ks[i] == ChangeKey(id, cs[i]) && ParsedCount(ks[i]) == Some(cs[i])
              && ks[i] in t && Rows(t, ks)[i].value == t[ks[i]]
  {
    forall i | 0 <= i < |ks|
      ensures ks[i] == ChangeKey(id, cs[i]) && ParsedCount(ks[i]) == Some(cs[i]) && ks[i] in t
    {
      ParsedCountOf(id, cs[i]);
      assert ks[i] in ks;
    }
  }

  lemma RangeTaken(t: Table, id: Text, from: U64, limit: U64, cs: seq<U64>, taken: nat)
    requires from < U64_MAX && Cut(t, Prefix(id), from + 1, false, cs) && taken <= |cs|
    requires forall i :: 0 <= i < taken ==> cs[i] <= limit
    requires taken < |cs| ==> cs[taken] > limit
    ensures InRange(t, id, from, limit, cs[..taken])
  {
    TakeUpToLimit(cs, limit, taken);
  }

  lemma RangeScan(t: Table, id: Text, from: U64, rows: seq<Row>) returns (cs: seq<U64>)
    requires from < U64_MAX && Keyed(t)
    requires rows == Rows(t, PrefixKeysFrom(t, Prefix(id), ChangeKey(id, from + 1), false))
    ensures Cut(t, Prefix(id), from + 1, false, cs) && |cs| == |rows|
    ensures forall i :: 0 <= i < |rows| ==>
              ChangeKey(id, cs[i]) in t && rows[i] == Row(ChangeKey(id, cs[i]), t[ChangeKey(id, cs[i])])
              && ParsedCount(rows[i].key) == Some(cs[i])
  {
    KeyedIsLog(t, id);
    cs := SeekIsCut(t, Prefix(id), from + 1, false);
    RowsParsed(t, id, PrefixKeysFrom(t, Prefix(id), ChangeKey(id, from + 1), false), cs);
  }

  lemma RangeRead(t: Table, id: Text, from: U64, limit: U64, rows: seq<Row>, users: seq<Bytes>)
    returns (counts: seq<U64>)
    requires from < U64_MAX && Keyed(t)
    requires rows == Rows(t, PrefixKeysFrom(t, Prefix(id), ChangeKey(id, from + 1), false))
    requires |users| <= |rows|
    requires forall i :: 0 <= i < |users| ==>
               users[i] == rows[i].value && ParsedCount(rows[i].key).Some? && ParsedCount(rows[i].key).value <= limit
    requires |users| < |rows| ==>
               var c := ParsedCount(rows[|users|].key); c.None? || c.value > limit
    ensures InRange(t, id, from, limit, counts) && Values(t, id, counts, users)
  {
    var cs := RangeScan(t, id, from, rows);
    counts := cs[..|users|];
    RangeTaken(t, id, from, limit, cs, |users|);
  }

  lemma ReportedWasMarked(ms: seq<Mark>, id: Text, from: U64, to: U64, counts: seq<U64>, i: nat) returns (j: nat)
    requires Increasing(ms) && InRange(RunTable(ms), id, from, to, counts) && i < |counts|
    ensures j < |ms| && from < ms[j].count <= to && FiledUnder(ms[j], id)
    ensures ChangeKey(id, counts[i]) in RunTable(ms) && RunTable(ms)[ChangeKey(id, counts[i])] == ms[j].user
  {
    assert counts[i] in counts;
    RunTableHas(ms, id, counts[i]);
    j :| 0 <= j < |ms| && ms[j].count == counts[i] && FiledUnder(ms[j], id);
  }

  lemma MarkedIsReported(ms: seq<Mark>, id: Text, from: U64, to: U64, counts: seq<U64>, j: nat) returns (i: nat)
    requires Increasing(ms) && InRange(RunTable(ms), id, from, to, counts)
    requires j < |ms| && from < ms[j].count <= to && FiledUnder(ms[j], id)
    ensures i < |counts| && ChangeKey(id, counts[i]) in RunTable(ms)
    ensures RunTable(ms)[ChangeKey(id, counts[i])] == ms[j].user
  {
    RunTableHas(ms, id, ms[j].count);
    assert ms[j].count in counts;
    i :| 0 <= i < |counts| && counts[i] == ms[j].count;
  }

  /** Over every run of changes, reading `(from, to]` under an id reports a user exactly when one
      of their changes in that range was filed under the id. */
  lemma ReportedIffMarked(ms: seq<Mark>, id: Text, from: U64, to: U64, users: seq<Bytes>, user: Bytes)
    requires Increasing(ms) && IsReport(RunTable(ms), id, from, to, users)
    ensures user in users <==> Marked(ms, id, from, to, user)
    ensures user in users <==>
            exists j :: 0 <= j < |ms| && from < ms[j].count <= to && (id in ms[j].rooms || id == ms[j].user)
                        && ms[j].user == user
  {
    var t := RunTable(ms);
    var counts: seq<U64> :| InRange(t, id, from, to, counts) && Values(t, id, counts, users);
    if i :| 0 <= i < |users| && users[i] == user {
      var j := ReportedWasMarked(ms, id, from, to, counts, i);
    }
    if j :| 0 <= j < |ms| && from < ms[j].count <= to && FiledUnder(ms[j], id) && ms[j].user == user {
      var i := MarkedIsReported(ms, id, from, to, counts, j);
      assert users[i] == user;
    }
  }

  lemma MarkedIsUser(isUser: Bytes -> bool, ms: seq<Mark>, id: Text, from: U64, to: U64, user: Bytes)
    requires Marked(ms, id, from, to, user) && forall i :: 0 <= i < |ms| ==> isUser(ms[i].user)
    ensures isUser(user)
  {
  }

  lemma ParsedReport(isUser: Bytes -> bool, ms: seq<Mark>, id: Text, from: U64, to: U64, values: seq<Bytes>,
                     users: seq<Result<Bytes, string>>)
    requires Increasing(ms) && IsReport(RunTable(ms), id, from, to, values)
    requires forall i :: 0 <= i < |ms| ==> isUser(ms[i].user)
    requires |users| == |values| && forall i :: 0 <= i < |values| && isUser(values[i]) ==> users[i] == Ok(values[i])
    ensures forall i :: 0 <= i < |users| ==> users[i].Ok?
    ensures Oks(users) == values
    ensures forall user :: Ok(user) in users <==> Marked(ms, id, from, to, user)
  {
    hide IsReport, RunTable, Marked, Increasing;
    forall i | 0 <= i < |values| ensures isUser(values[i]) {
      ReportedIffMarked(ms, id, from, to, values, values[i]);
      MarkedIsUser(isUser, ms, id, from, to, values[i]);
    }
    assert Oks(users) == values;
    forall user ensures Ok(user) in users <==> Marked(ms, id, from, to, user) {
      ReportedIffMarked(ms, id, from, to, values, user);
      if user in values {
        var i :| 0 <= i < |values| && values[i] == user;
        assert users[i] == Ok(user);
      }
    }
  }
}
