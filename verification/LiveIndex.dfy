/** Two trees kept in agreement: `data` holds each live value under a key made of its slot and
    write count, `index` leads from the slot to that key. The key layouts are parameters. */
module LiveIndex {
  import opened Bytes
  import opened Wrappers

  datatype Entry<+V> = Entry(count: U64, data: V)

  ghost predicate Clash<S, K>(key: S -> K, s: S, t: S) {
    key(s) == key(t)
  }

  ghost predicate Clash2<S, K>(key: (S, U64) -> K, s: S, c: U64, t: S, d: U64) {
    key(s, c) == key(t, d)
  }

  ghost predicate Injective<S(!new), K>(key: S -> K) {
    forall s, t :: Clash(key, s, t) ==> s == t
  }

  ghost predicate Injective2<S(!new), K>(key: (S, U64) -> K) {
    forall s, c, t, d :: Clash2(key, s, c, t, d) ==> s == t && c == d
  }

  ghost predicate Indexed<S(!new), K, V>(pk: S -> K, dk: (S, U64) -> K, abs: map<S, Entry<V>>, index: map<K, K>) {
    && (forall s :: s in abs ==> pk(s) in index && index[pk(s)] == dk(s, abs[s].count))
    && (forall k :: k in index ==> exists s :: s in abs && k == pk(s))
  }

  ghost predicate Stored<S(!new), K, V>(dk: (S, U64) -> K, abs: map<S, Entry<V>>, data: map<K, V>) {
    && (forall s :: s in abs ==> dk(s, abs[s].count) in data && data[dk(s, abs[s].count)] == abs[s].data)
    && (forall k :: k in data ==> exists s :: s in abs && k == dk(s, abs[s].count))
  }

  ghost predicate Older<S, V>(abs: map<S, Entry<V>>, count: nat) {
    forall s :: s in abs ==> abs[s].count < count
  }

  lemma IndexMoves<S(!new), K, V>(pk: S -> K, dk: (S, U64) -> K, abs: map<S, Entry<V>>, index: map<K, K>,
                                    slot: S, entry: Entry<V>)
    requires Injective(pk) && Indexed(pk, dk, abs, index)
    ensures Indexed(pk, dk, abs[slot := entry], index[pk(slot) := dk(slot, entry.count)])
  {
    var abs', index' := abs[slot := entry], index[pk(slot) := dk(slot, entry.count)];
    forall s | s in abs' ensures pk(s) in index' && index'[pk(s)] == dk(s, abs'[s].count) {
      assert Clash(pk, s, slot) ==> s == slot;
    }
    forall k | k in index' ensures exists s :: s in abs' && k == pk(s) {
      if k == pk(slot) {
        assert slot in abs';
      } else {
        var s :| s in abs && k == pk(s);
        assert s in abs';
      }
    }
  }

  /** The tree of values after a write: the new entry is added and the one the index named, if
      any, is removed. Freshness of the count keeps the two apart. */
  function Written<K, V>(data: map<K, V>, key: K, value: V, prev: set<K>): map<K, V> {
    data[key := value] - prev
  }

  lemma DataMoves<S(!new), K, V>(pk: S -> K, dk: (S, U64) -> K, abs: map<S, Entry<V>>, index: map<K, K>,
                                 data: map<K, V>, slot: S, entry: Entry<V>)
    requires Injective(pk) && Injective2(dk) && Older(abs, entry.count)
    requires Indexed(pk, dk, abs, index) && Stored(dk, abs, data)
    ensures var prev := if pk(slot) in index then {index[pk(slot)]} else {};
      Stored(dk, abs[slot := entry], Written(data, dk(slot, entry.count), entry.data, prev))
  {
    var prev := if pk(slot) in index then {index[pk(slot)]} else {};
    assert prev == if slot in abs then {dk(slot, abs[slot].count)} else {} by {
      if pk(slot) in index {
        var s :| s in abs && pk(slot) == pk(s);
        assert Clash(pk, slot, s);
      }
    }
    var abs', data' := abs[slot := entry], Written(data, dk(slot, entry.count), entry.data, prev);
    forall s | s in abs' ensures dk(s, abs'[s].count) in data' && data'[dk(s, abs'[s].count)] == abs'[s].data {
      assert Clash2(dk, s, abs'[s].count, slot, entry.count) ==> s == slot;
      if slot in abs {
        assert !Clash2(dk, s, abs'[s].count, slot, abs[slot].count);
      }
    }
    forall k | k in data' ensures exists s :: s in abs' && k == dk(s, abs'[s].count) {
      if k == dk(slot, entry.count) {
        assert slot in abs';
      } else {
        var s :| s in abs && k == dk(s, abs[s].count);
        assert s in abs' && s != slot;
      }
    }
  }

  // ---------- whole runs of writes ----------

  /** A write at the position `count` that it took. */
  datatype Write<+S, +V> = Write(slot: S, count: U64, accepted: bool, value: V)

  datatype Db<K, V> = Db(index: map<K, K>, data: map<K, V>, count: U64)

  /** The tree operations of one write; the count is used up even when the write is refused. */
  function Update<S, K(==), V>(pk: S -> K, dk: (S, U64) -> K, db: Db<K, V>, w: Write<S, V>): (r: Db<K, V>)
    ensures r.count == w.count
  {
    if !w.accepted then db.(count := w.count)
    else
      var prev := if pk(w.slot) in db.index then {db.index[pk(w.slot)]} else {};
      Db(db.index[pk(w.slot) := dk(w.slot, w.count)], Written(db.data, dk(w.slot, w.count), w.value, prev), w.count)
  }

  function AbsUpdate<S(==), V>(abs: map<S, Entry<V>>, w: Write<S, V>): map<S, Entry<V>> {
    if w.accepted then abs[w.slot := Entry(w.count, w.value)] else abs
  }

  /** The two trees hold exactly one live entry per slot, the index names it, and no count lies
      ahead of the counter. */
  ghost predicate Refines<S(!new), K, V>(pk: S -> K, dk: (S, U64) -> K, abs: map<S, Entry<V>>, db: Db<K, V>) {
    Indexed(pk, dk, abs, db.index) && Stored(dk, abs, db.data) && Older(abs, db.count + 1)
  }

  /** One write, at any later position, keeps the trees in agreement with the map. */
  lemma UpdateRefines<S(!new), K, V>(pk: S -> K, dk: (S, U64) -> K, abs: map<S, Entry<V>>, db: Db<K, V>, w: Write<S, V>)
    requires Injective(pk) && Injective2(dk) && Refines(pk, dk, abs, db) && db.count < w.count
    ensures Refines(pk, dk, AbsUpdate(abs, w), Update(pk, dk, db, w))
  {
    hide Indexed, Stored, Injective, Injective2;
    if w.accepted {
      var entry := Entry(w.count, w.value);
      IndexMoves(pk, dk, abs, db.index, w.slot, entry);
      DataMoves(pk, dk, abs, db.index, db.data, w.slot, entry);
    }
  }

  /** Positions taken by other parts of the server change nothing. */
  lemma LaterRefines<S(!new), K, V>(pk: S -> K, dk: (S, U64) -> K, abs: map<S, Entry<V>>, db: Db<K, V>, count: U64)
    requires Refines(pk, dk, abs, db) && db.count <= count
    ensures Refines(pk, dk, abs, db.(count := count))
  {
    hide Indexed, Stored;
  }

  /** Writes take increasing positions; those in between went elsewhere. */
  ghost predicate Increasing<S, V>(ws: seq<Write<S, V>>) {
    && (forall i :: 0 <= i < |ws| ==> 0 < ws[i].count)
    && (forall i, j :: 0 <= i < j < |ws| ==> ws[i].count < ws[j].count)
  }

  /** The trees after the writes `ws` on an empty database. */
  function RunDb<S, K(==), V>(pk: S -> K, dk: (S, U64) -> K, ws: seq<Write<S, V>>): (db: Db<K, V>)
    ensures db.count == if ws == [] then 0 else ws[|ws| - 1].count
  {
    if ws == [] then Db(map[], map[], 0) else Update(pk, dk, RunDb(pk, dk, ws[..|ws| - 1]), ws[|ws| - 1])
  }

  /** The last accepted write to `slot`, found by looking back. */
  function LastWrite<S(==), V>(ws: seq<Write<S, V>>, slot: S): (r: Option<nat>)
    ensures r.Some? ==> r.value < |ws| && ws[r.value].slot == slot && ws[r.value].accepted
    ensures forall j :: (if r.Some? then r.value + 1 else 0) <= j < |ws| ==> ws[j].slot != slot || !ws[j].accepted
  {
    if ws == [] then None
    else if ws[|ws| - 1].slot == slot && ws[|ws| - 1].accepted then Some(|ws| - 1)
    else LastWrite(ws[..|ws| - 1], slot)
  }

  /** The map of last writes, each with the position it took. */
  ghost predicate IsHistory<S(!new), V>(abs: map<S, Entry<V>>, ws: seq<Write<S, V>>) {
    forall slot ::
      && (slot in abs <==> LastWrite(ws, slot).Some?)
      && (slot in abs ==> abs[slot] == Entry(ws[LastWrite(ws, slot).value].count, ws[LastWrite(ws, slot).value].value))
  }

  lemma HistoryGrows<S(!new), V>(abs: map<S, Entry<V>>, ws: seq<Write<S, V>>, w: Write<S, V>)
    requires IsHistory(abs, ws)
    ensures IsHistory(AbsUpdate(abs, w), ws + [w])
  {
    assert (ws + [w])[..|ws|] == ws;
  }

  /** After any sequence of writes, whatever else takes positions in between, the two trees are exactly
      the map of last writes. */
  lemma {:induction false} RunRefines<S(!new), K, V>(pk: S -> K, dk: (S, U64) -> K, ws: seq<Write<S, V>>)
    returns (abs: map<S, Entry<V>>)
    requires Increasing(ws) && Injective(pk) && Injective2(dk)
    ensures IsHistory(abs, ws) && Refines(pk, dk, abs, RunDb(pk, dk, ws))
  {
    if ws == [] {
      abs := map[];
    } else {
      var n := |ws| - 1;
      var before := RunRefines(pk, dk, ws[..n]);
      abs := AbsUpdate(before, ws[n]);
      UpdateRefines(pk, dk, before, RunDb(pk, dk, ws[..n]), ws[n]);
      HistoryGrows(before, ws[..n], ws[n]);
      assert ws == ws[..n] + [ws[n]];
    }
  }

  /** Following the index to the live entry. */
  function GetFrom<S, K(==), V>(pk: S -> K, db: Db<K, V>, slot: S): Option<V> {
    if pk(slot) in db.index && db.index[pk(slot)] in db.data
    then Some(db.data[db.index[pk(slot)]]) else None
  }

  lemma GetFromIs<S(!new), K, V>(pk: S -> K, dk: (S, U64) -> K, abs: map<S, Entry<V>>, db: Db<K, V>, slot: S)
    requires Injective(pk) && Refines(pk, dk, abs, db)
    ensures GetFrom(pk, db, slot) == if slot in abs then Some(abs[slot].data) else None
  {
    if pk(slot) in db.index {
      var s :| s in abs && pk(slot) == pk(s);
      assert Clash(pk, slot, s);
    }
  }

  /** After any sequence of writes, reading a slot gives its last accepted value. */
  lemma GetReturnsLastWrite<S(!new), K, V>(pk: S -> K, dk: (S, U64) -> K, ws: seq<Write<S, V>>, slot: S)
    requires Increasing(ws) && Injective(pk) && Injective2(dk)
    ensures GetFrom(pk, RunDb(pk, dk, ws), slot) ==
            match LastWrite(ws, slot) case Some(i) => Some(ws[i].value) case None => None
  {
    var abs := RunRefines(pk, dk, ws);
    GetFromIs(pk, dk, abs, RunDb(pk, dk, ws), slot);
  }
}
