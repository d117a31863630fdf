/** One table of the key-value store: a map kept in key order, with the seeks and prefix scans
    that both database backends implement, and the global counter kept in such a table. */
module KvTree {
  import opened Bytes
  import opened Wrappers

  type Table = map<Bytes, Bytes>

  datatype Row = Row(key: Bytes, value: Bytes)

  // ---------- keys in order ----------

  predicate After(x: Bytes, y: Bytes, backwards: bool) {
    if backwards then LexLe(y, x) else LexLe(x, y)
  }

  /** Ascending, or descending when read backwards, without repetition. */
  predicate Ordered(ks: seq<Bytes>, backwards: bool) {
    forall i, j :: 0 <= i < j < |ks| ==> After(ks[i], ks[j], backwards) && ks[i] != ks[j]
  }

  predicate IsFirst(k: Bytes, s: set<Bytes>, backwards: bool) {
    k in s && forall x :: x in s ==> After(k, x, backwards)
  }

  lemma FirstExists(s: set<Bytes>, backwards: bool)
    requires s != {}
    ensures exists k :: k in s && IsFirst(k, s, backwards)
  {
    var x :| x in s;
    LexRefl(x);
    if s == {x} {
      assert IsFirst(x, s, backwards);
    } else {
      var rest := s - {x};
      FirstExists(rest, backwards);
      var y :| y in rest && IsFirst(y, rest, backwards);
      LexTotal(x, y);
      if After(y, x, backwards) {
        assert IsFirst(y, s, backwards);
      } else {
        forall z | z in s ensures After(x, z, backwards) {
          if z in rest { AfterTrans(x, y, z, backwards); }
        }
        assert IsFirst(x, s, backwards);
      }
    }
  }

  lemma AfterTrans(x: Bytes, y: Bytes, z: Bytes, backwards: bool)
    requires After(x, y, backwards) && After(y, z, backwards)
    ensures After(x, z, backwards)
  {
    if backwards { LexTrans(z, y, x); } else { LexTrans(x, y, z); }
  }

  lemma FirstUnique(s: set<Bytes>, x: Bytes, y: Bytes, backwards: bool)
    requires IsFirst(x, s, backwards) && IsFirst(y, s, backwards)
    ensures x == y
  {
    LexAntisym(x, y);
  }

  /** The keys of `s` in order. */
  function Sorted(s: set<Bytes>, backwards: bool): (ks: seq<Bytes>)
    ensures Ordered(ks, backwards)
    ensures forall k :: k in ks <==> k in s
  {
    if s == {} then [] else
      FirstExists(s, backwards);
      assert forall x, y :: IsFirst(x, s, backwards) && IsFirst(y, s, backwards) ==> x == y by {
        forall x, y | IsFirst(x, s, backwards) && IsFirst(y, s, backwards) ensures x == y {
          FirstUnique(s, x, y, backwards);
        }
      }
      var k :| k in s && IsFirst(k, s, backwards);
      var rest := Sorted(s - {k}, backwards);
      assert forall i :: 0 <= i < |rest| ==> rest[i] in rest;
      [k] + rest
  }

  lemma HeadIsFirst(ks: seq<Bytes>, k: Bytes, backwards: bool)
    requires Ordered(ks, backwards) && k in ks
    ensures After(ks[0], k, backwards)
  {
    LexRefl(k);
    var i :| 0 <= i < |ks| && ks[i] == k;
  }

  /** An ordered sequence is determined by its elements. */
  lemma {:induction false} OrderedUnique(a: seq<Bytes>, b: seq<Bytes>, backwards: bool)
    requires Ordered(a, backwards) && Ordered(b, backwards)
    requires forall k :: k in a <==> k in b
    ensures a == b
  {
    if a == [] {
      assert forall i :: 0 <= i < |b| ==> b[i] in b;
    } else {
      assert a[0] in a && a[0] in b;
      assert b[0] in b && b[0] in a;
      HeadIsFirst(a, b[0], backwards);
      HeadIsFirst(b, a[0], backwards);
      LexAntisym(a[0], b[0]);
      assert a == [a[0]] + a[1..] && b == [b[0]] + b[1..];
      forall k ensures k in a[1..] <==> k in b[1..] {
        if k in a[1..] { assert k in a && k != a[0]; }
        if k in b[1..] { assert k in b && k != b[0]; }
      }
      OrderedUnique(a[1..], b[1..], backwards);
    }
  }

  function Rows(t: Table, ks: seq<Bytes>): (rows: seq<Row>)
    requires forall k :: k in ks ==> k in t
    ensures |rows| == |ks|
    ensures forall i :: 0 <= i < |ks| ==> rows[i] == Row(ks[i], t[ks[i]])
  {
    seq(|ks|, i requires 0 <= i < |ks| => Row(ks[i], t[ks[i]]))
  }

  // ---------- seeks and prefix scans ----------

  /** The keys an iterator from `from` visits, in its order. */
  function IterKeys(t: Table, from: Bytes, backwards: bool): (ks: seq<Bytes>)
    ensures forall k :: k in ks <==> k in t && After(from, k, backwards)
    ensures Ordered(ks, backwards)
  {
    Sorted((set k | k in t && After(from, k, backwards)), backwards)
  }

  function TakeWhilePrefix(ks: seq<Bytes>, prefix: Bytes): (r: seq<Bytes>)
    ensures r <= ks && (forall k :: k in r ==> prefix <= k)
    ensures |r| < |ks| ==> !(prefix <= ks[|r|])
  {
    if ks == [] || !(prefix <= ks[0]) then [] else [ks[0]] + TakeWhilePrefix(ks[1..], prefix)
  }

  lemma TakeWhilePrefixIs(ks: seq<Bytes>, prefix: Bytes, n: nat)
    requires n <= |ks| && (forall i :: 0 <= i < n ==> prefix <= ks[i])
    requires n < |ks| ==> !(prefix <= ks[n])
    ensures TakeWhilePrefix(ks, prefix) == ks[..n]
  {
    var r := TakeWhilePrefix(ks, prefix);
    assert forall i :: 0 <= i < |r| ==> r[i] in r && r[i] == ks[i];
  }

  /** What a scan from `from` restricted to `prefix` should visit: every key of that prefix on
      the right side of `from`. */
  function PrefixKeysFrom(t: Table, prefix: Bytes, from: Bytes, backwards: bool): (ks: seq<Bytes>)
    ensures forall k :: k in ks <==> k in t && prefix <= k && After(from, k, backwards)
    ensures Ordered(ks, backwards)
  {
    Sorted((set k | k in t && prefix <= k && After(from, k, backwards)), backwards)
  }

  function PrefixKeys(t: Table, prefix: Bytes): (ks: seq<Bytes>)
    ensures forall k :: k in ks <==> k in t && prefix <= k
    ensures Ordered(ks, false)
  {
    Sorted((set k | k in t && prefix <= k), false)
  }

  /** Keys between the seek position and a key of the prefix have the prefix, so taking while
      the prefix matches loses none of them. */
  lemma TakeLosesNone(ks: seq<Bytes>, prefix: Bytes, from: Bytes, backwards: bool, k: Bytes)
    requires prefix <= from && Ordered(ks, backwards)
    requires forall x :: x in ks ==> After(from, x, backwards)
    requires k in ks && prefix <= k
    ensures k in TakeWhilePrefix(ks, prefix)
  {
    var got := TakeWhilePrefix(ks, prefix);
    var i :| 0 <= i < |ks| && ks[i] == k;
    if |got| < i {
      var stop := ks[|got|];
      assert stop in ks && After(stop, ks[i], backwards);
      if backwards {
        PrefixConvex(prefix, k, stop, from);
      } else {
        PrefixConvex(prefix, from, stop, k);
      }
    }
    assert i < |got|;
    assert got[i] == k;
  }

  /** Seeking inside a prefix and taking keys while the prefix matches is exact, in both
      directions: no key of the prefix on that side of the seek is missed or repeated. */
  lemma SeekTakeWhileExact(t: Table, prefix: Bytes, from: Bytes, backwards: bool)
    requires prefix <= from
    ensures TakeWhilePrefix(IterKeys(t, from, backwards), prefix)
            == PrefixKeysFrom(t, prefix, from, backwards)
  {
    var all := IterKeys(t, from, backwards);
    var got := TakeWhilePrefix(all, prefix);
    var exact := PrefixKeysFrom(t, prefix, from, backwards);
    forall k ensures k in got <==> k in exact {
      if k in exact { TakeLosesNone(all, prefix, from, backwards, k); }
    }
    OrderedUnique(got, exact, backwards);
  }

  lemma ScanPrefixExact(t: Table, prefix: Bytes)
    ensures TakeWhilePrefix(IterKeys(t, prefix, false), prefix) == PrefixKeys(t, prefix)
    ensures PrefixKeysFrom(t, prefix, prefix, false) == PrefixKeys(t, prefix)
  {
    SeekTakeWhileExact(t, prefix, prefix, false);
    forall k | k in t && prefix <= k ensures LexLe(prefix, k) { PrefixLe(prefix, k); }
    OrderedUnique(PrefixKeysFrom(t, prefix, prefix, false), PrefixKeys(t, prefix), false);
  }

  // ---------- the table as an object ----------

  function InsertAll(t: Table, rows: seq<Row>): Table {
    if rows == [] then t
    else InsertAll(t, rows[..|rows| - 1])[rows[|rows| - 1].key := rows[|rows| - 1].value]
  }

  function RemoveAll(t: Table, rows: seq<Row>): Table {
    if rows == [] then t else RemoveAll(t, rows[..|rows| - 1]) - {rows[|rows| - 1].key}
  }

  /** A batch leaves the keys alone that it does not name. */
  lemma {:induction false} InsertAllElsewhere(t: Table, rows: seq<Row>, k: Bytes)
    requires forall i :: 0 <= i < |rows| ==> rows[i].key != k
    ensures Lookup(InsertAll(t, rows), k) == Lookup(t, k)
    decreases |rows|
  {
    if rows != [] { InsertAllElsewhere(t, rows[..|rows| - 1], k); }
  }

  /** The last row for a key decides. */
  lemma {:induction false} InsertAllLast(t: Table, rows: seq<Row>, i: nat)
    requires i < |rows| && forall j :: i < j < |rows| ==> rows[j].key != rows[i].key
    ensures Lookup(InsertAll(t, rows), rows[i].key) == Some(rows[i].value)
    decreases |rows|
  {
    var n := |rows| - 1;
    if i < n {
      InsertAllLast(t, rows[..n], i);
      assert rows[n].key != rows[i].key;
    }
  }

  lemma {:induction false} RemoveAllAt(t: Table, rows: seq<Row>, k: Bytes)
    ensures Lookup(RemoveAll(t, rows), k) ==
            if exists i :: 0 <= i < |rows| && rows[i].key == k then None else Lookup(t, k)
    decreases |rows|
  {
    if rows != [] {
      var n := |rows| - 1;
      RemoveAllAt(t, rows[..n], k);
      assert forall i :: 0 <= i < n ==> rows[..n][i] == rows[i];
    }
  }

  /** Removing the rows of a scan one by one removes exactly its keys. */
  lemma RemoveAllIs(t: Table, u: Table, ks: seq<Bytes>)
    requires forall k :: k in ks ==> k in u
    ensures RemoveAll(t, Rows(u, ks)) == t - set k | k in ks
  {
    var rows := Rows(u, ks);
    forall k ensures Lookup(RemoveAll(t, rows), k) == Lookup(t - (set x | x in ks), k) {
      RemoveAllAt(t, rows, k);
      assert k in ks <==> exists i :: 0 <= i < |rows| && rows[i].key == k by {
        if k in ks {
          var i :| 0 <= i < |ks| && ks[i] == k;
          assert rows[i].key == k;
        }
      }
    }
    SameLookups(RemoveAll(t, rows), t - set k | k in ks);
  }

  lemma SameLookups(t: Table, u: Table)
    requires forall k :: Lookup(t, k) == Lookup(u, k)
    ensures t == u
  {
    forall k ensures k in t <==> k in u { assert Lookup(t, k) == Lookup(u, k); }
    forall k | k in t ensures t[k] == u[k] { assert Lookup(t, k) == Lookup(u, k); }
  }

  /** A stored value of any length other than 8 counts as absent, so counting starts again. */
  function IncrementValue(stored: Option<Bytes>): (r: Bytes)
    requires stored.Some? ==> U64FromBytes(stored.value) != Some(U64_MAX)
    ensures |r| == 8
  {
    match stored
    case Some(bytes) => (
      match U64FromBytes(bytes)
      case Some(n) => Be64(n + 1)
      case None => Be64(1)
    )
    case None => Be64(1)
  }

  function Lookup(t: Table, key: Bytes): Option<Bytes> {
    if key in t then Some(t[key]) else None
  }

  method TakeRows(all: seq<Row>, prefix: Bytes) returns (rows: seq<Row>)
    ensures rows <= all && (forall i :: 0 <= i < |rows| ==> prefix <= rows[i].key)
    ensures |rows| < |all| ==> !(prefix <= all[|rows|].key)
  {
    var n := 0;
    while n < |all| && prefix <= all[n].key
      invariant 0 <= n <= |all|
      invariant forall i :: 0 <= i < n ==> prefix <= all[i].key
    {
      n := n + 1;
    }
    rows := all[..n];
  }

  lemma RowsTaken(t: Table, ks: seq<Bytes>, prefix: Bytes, rows: seq<Row>)
    requires forall k :: k in ks ==> k in t
    requires rows <= Rows(t, ks) && (forall i :: 0 <= i < |rows| ==> prefix <= rows[i].key)
    requires |rows| < |ks| ==> !(prefix <= ks[|rows|])
    ensures rows == Rows(t, TakeWhilePrefix(ks, prefix))
  {
    assert forall i :: 0 <= i < |rows| ==> rows[i] == Rows(t, ks)[i];
    TakeWhilePrefixIs(ks, prefix, |rows|);
  }

  class KvTree {
    var table: Table

    constructor ()
      ensures table == map[]
    {
      table := map[];
    }

    method Get(key: Bytes) returns (r: Option<Bytes>)
      ensures r == Lookup(table, key)
    {
      r := if key in table then Some(table[key]) else None;
    }

    method Insert(key: Bytes, value: Bytes)
      modifies this
      ensures table == old(table)[key := value]
    {
      table := table[key := value];
    }

    method InsertBatch(rows: seq<Row>)
      modifies this
      ensures table == InsertAll(old(table), rows)
      ensures forall i :: 0 <= i < |rows| && (forall j :: i < j < |rows| ==> rows[j].key != rows[i].key) ==>
                Lookup(table, rows[i].key) == Some(rows[i].value)
      ensures forall k :: (forall i :: 0 <= i < |rows| ==> rows[i].key != k) ==>
                Lookup(table, k) == Lookup(old(table), k)
    {
      for i := 0 to |rows|
        invariant table == InsertAll(old(table), rows[..i])
      {
        assert rows[..i + 1][..i] == rows[..i];
        table := table[rows[i].key := rows[i].value];
      }
      assert rows[..|rows|] == rows;
      forall i | 0 <= i < |rows| && (forall j :: i < j < |rows| ==> rows[j].key != rows[i].key)
        ensures Lookup(table, rows[i].key) == Some(rows[i].value)
      {
        InsertAllLast(old(table), rows, i);
      }
      forall k | forall i :: 0 <= i < |rows| ==> rows[i].key != k ensures Lookup(table, k) == Lookup(old(table), k) {
        InsertAllElsewhere(old(table), rows, k);
      }
    }

    method Remove(key: Bytes)
      modifies this
      ensures table == old(table) - {key}
    {
      table := table - {key};
    }

    method Increment(key: Bytes) returns (value: Bytes)
      requires Lookup(table, key).Some? ==> U64FromBytes(table[key]) != Some(U64_MAX)
      modifies this
      ensures value == IncrementValue(old(Lookup(table, key)))
      ensures table == old(table)[key := value]
    {
      value := IncrementValue(Lookup(table, key));
      table := table[key := value];
    }

    method IterFrom(from: Bytes, backwards: bool) returns (rows: seq<Row>)
      ensures rows == Rows(table, IterKeys(table, from, backwards))
    {
      rows := Rows(table, IterKeys(table, from, backwards));
    }

    /** Seeks to `from` and takes rows while their key starts with `prefix`. */
    method IterWithin(prefix: Bytes, from: Bytes, backwards: bool) returns (rows: seq<Row>)
      requires prefix <= from
      ensures rows == Rows(table, PrefixKeysFrom(table, prefix, from, backwards))
    {
      var all := IterFrom(from, backwards);
      rows := TakeRows(all, prefix);
      SeekTakeWhileExact(table, prefix, from, backwards);
      RowsTaken(table, IterKeys(table, from, backwards), prefix, rows);
    }

    method ScanPrefix(prefix: Bytes) returns (rows: seq<Row>)
      ensures rows == Rows(table, PrefixKeys(table, prefix))
    {
      rows := IterWithin(prefix, prefix, false);
      ScanPrefixExact(table, prefix);
    }
  }

  // ---------- the global counter ----------

  const COUNTER: Bytes := [0x63]

  /** The position last handed out: 0 before the first, none if the stored bytes are no u64. */
  function CountOf(t: Table): Option<U64> {
    if COUNTER in t then U64FromBytes(t[COUNTER]) else Some(0)
  }

  class Globals {
    const global: KvTree

    constructor (global: KvTree)
      ensures this.global == global
    {
      this.global := global;
    }

    method CurrentCount() returns (r: Result<U64, string>)
      ensures r.Ok? <==> CountOf(global.table).Some?
      ensures r.Ok? ==> CountOf(global.table) == Some(r.value)
      ensures COUNTER !in global.table ==> r == Ok(0)
      ensures r.Err? <==> COUNTER in global.table && |global.table[COUNTER]| != 8
    {
      var bytes := global.Get(COUNTER);
      match bytes
      case None => r := Ok(0);
      case Some(b) =>
        match U64FromBytes(b)
        case Some(n) => r := Ok(n);
        case None => r := Err("Count has invalid bytes.");
    }

    /** Hands out the successor of the current position and keeps every other global. */
    method NextCount() returns (count: U64)
      requires CountOf(global.table) != Some(U64_MAX)
      modifies global
      ensures CountOf(global.table) == Some(count)
      ensures count == if old(CountOf(global.table)).Some? then old(CountOf(global.table)).value + 1 else 1
      ensures global.table == old(global.table)[COUNTER := Be64(count)]
      ensures COUNTER !in old(global.table) ==> count == 1
      ensures COUNTER in old(global.table) && |old(global.table)[COUNTER]| != 8 ==> count == 1
    {
      var bytes := global.Increment(COUNTER);
      ghost var next: U64 := match old(CountOf(global.table)) case Some(n) => n + 1 case None => 1;
      U64RoundTrip(next);
      count := U64FromBytes(bytes).value;
    }
  }
}
