/** Keys that end in a big-endian counter: below a fixed prefix such a table is a log ordered by
    its counters, and seeks cut it at a counter exactly. */
module CounterLog {
  import opened Bytes
  import opened KvTree
  import opened Wrappers
  import R = Radix

  function Key(prefix: Bytes, count: U64): Bytes {
    prefix + Be64(count)
  }

  /** Everything stored below `prefix` is a counter key. */
  ghost predicate IsLog(t: Table, prefix: Bytes) {
    forall k :: k in t && prefix <= k ==> |k| == |prefix| + 8
  }

  /** The counter in the last eight bytes of a key. */
  function Counter(k: Bytes): U64
    requires |k| >= 8
  {
    U64FromBytes(k[|k| - 8..]).value
  }

  lemma CounterOfKey(prefix: Bytes, c: U64)
    ensures Counter(Key(prefix, c)) == c
  {
    var k := Key(prefix, c);
    assert k[|k| - 8..] == Be64(c);
    U64RoundTrip(c);
  }

  lemma KeyOfCounter(k: Bytes, prefix: Bytes)
    requires prefix <= k && |k| == |prefix| + 8
    ensures k == Key(prefix, Counter(k))
  {
    var tail := k[|prefix|..];
    U64Range(tail);
    FixedOfValue(tail);
    assert k == prefix + tail;
  }

  lemma FixedOfValue(b: Bytes)
    requires |b| == 8 && U64FromBytes(b).Some?
    ensures Be64(U64FromBytes(b).value) == b
  {
    R.FixedVal(256, b);
  }

  /** Keys of one prefix are ordered as their counters. */
  lemma KeyOrder(prefix: Bytes, m: U64, n: U64)
    ensures LexLe(Key(prefix, m), Key(prefix, n)) <==> m <= n
  {
    LexCommonPrefix(prefix, Be64(m), Be64(n));
    Be64Order(m, n);
  }

  lemma KeyInjective(prefix: Bytes, m: U64, n: U64)
    requires Key(prefix, m) == Key(prefix, n)
    ensures m == n
  {
    CounterOfKey(prefix, m);
    CounterOfKey(prefix, n);
  }

  predicate Strictly(cs: seq<U64>, backwards: bool) {
    forall i, j :: 0 <= i < j < |cs| ==> if backwards then cs[j] < cs[i] else cs[i] < cs[j]
  }

  ghost predicate KeysOf(ks: seq<Bytes>, prefix: Bytes, cs: seq<U64>) {
    |ks| == |cs| && forall i :: 0 <= i < |ks| ==> ks[i] == Key(prefix, cs[i])
  }

  /** The counters present below `prefix` from `n` on, or up to `n` backwards, in that order. */
  ghost predicate Cut(t: Table, prefix: Bytes, n: U64, backwards: bool, cs: seq<U64>) {
    && Strictly(cs, backwards)
    && (forall c: U64 :: c in cs <==> Key(prefix, c) in t && (if backwards then c <= n else n <= c))
  }

  ghost predicate Whole(t: Table, prefix: Bytes, cs: seq<U64>) {
    Strictly(cs, false) && forall c: U64 :: c in cs <==> Key(prefix, c) in t
  }

  lemma {:induction false} ReadCounters(ks: seq<Bytes>, prefix: Bytes) returns (cs: seq<U64>)
    requires forall k :: k in ks ==> prefix <= k && |k| == |prefix| + 8
    ensures KeysOf(ks, prefix, cs)
  {
    if ks == [] {
      cs := [];
    } else {
      assert ks[0] in ks && forall k :: k in ks[1..] ==> k in ks;
      KeyOfCounter(ks[0], prefix);
      var rest := ReadCounters(ks[1..], prefix);
      cs := [Counter(ks[0])] + rest;
    }
  }

  lemma CountersOrdered(ks: seq<Bytes>, prefix: Bytes, cs: seq<U64>, backwards: bool)
    requires Ordered(ks, backwards) && KeysOf(ks, prefix, cs)
    ensures Strictly(cs, backwards)
  {
    forall i, j | 0 <= i < j < |cs| ensures if backwards then cs[j] < cs[i] else cs[i] < cs[j] {
      assert After(ks[i], ks[j], backwards) && ks[i] != ks[j];
      KeyOrder(prefix, cs[i], cs[j]);
      KeyOrder(prefix, cs[j], cs[i]);
    }
  }

  lemma CounterListed(ks: seq<Bytes>, prefix: Bytes, cs: seq<U64>, c: U64)
    requires KeysOf(ks, prefix, cs)
    ensures c in cs <==> Key(prefix, c) in ks
  {
    if c in cs {
      var i :| 0 <= i < |cs| && cs[i] == c;
      assert ks[i] == Key(prefix, c);
    }
    if Key(prefix, c) in ks {
      var i :| 0 <= i < |ks| && ks[i] == Key(prefix, c);
      KeyInjective(prefix, cs[i], c);
    }
  }

  lemma InSeek(t: Table, prefix: Bytes, n: U64, c: U64, backwards: bool)
    ensures Key(prefix, c) in PrefixKeysFrom(t, prefix, Key(prefix, n), backwards) <==>
            Key(prefix, c) in t && (if backwards then c <= n else n <= c)
  {
    KeyOrder(prefix, n, c);
    KeyOrder(prefix, c, n);
    assert prefix <= Key(prefix, c);
  }

  /** What a seek to counter `n` below `prefix` visits: exactly the entries from `n` on (or up to
      `n`, backwards), in the order of their counters. */
  lemma SeekIsCut(t: Table, prefix: Bytes, n: U64, backwards: bool) returns (cs: seq<U64>)
    requires IsLog(t, prefix)
    ensures KeysOf(PrefixKeysFrom(t, prefix, Key(prefix, n), backwards), prefix, cs)
    ensures Cut(t, prefix, n, backwards, cs)
  {
    var ks := PrefixKeysFrom(t, prefix, Key(prefix, n), backwards);
    cs := ReadCounters(ks, prefix);
    CountersOrdered(ks, prefix, cs, backwards);
    forall c: U64 ensures c in cs <==> Key(prefix, c) in t && (if backwards then c <= n else n <= c) {
      CounterListed(ks, prefix, cs, c);
      InSeek(t, prefix, n, c, backwards);
    }
  }

  /** A whole prefix is visited in the order of the counters. */
  lemma ScanIsLog(t: Table, prefix: Bytes) returns (cs: seq<U64>)
    requires IsLog(t, prefix)
    ensures KeysOf(PrefixKeys(t, prefix), prefix, cs) && Whole(t, prefix, cs)
  {
    var ks := PrefixKeys(t, prefix);
    cs := ReadCounters(ks, prefix);
    CountersOrdered(ks, prefix, cs, false);
    forall c: U64 ensures c in cs <==> Key(prefix, c) in t {
      CounterListed(ks, prefix, cs, c);
      assert prefix <= Key(prefix, c);
    }
  }

  /** Stopping an ascending list at the first counter above the limit keeps exactly the counters
      up to it. */
  lemma TakeUpToLimit(cs: seq<U64>, limit: U64, taken: nat)
    requires Strictly(cs, false) && taken <= |cs|
    requires forall i :: 0 <= i < taken ==> cs[i] <= limit
    requires taken < |cs| ==> cs[taken] > limit
    ensures forall c :: c in cs[..taken] <==> c in cs && c <= limit
    ensures Strictly(cs[..taken], false)
  {
    forall c | c in cs && c <= limit ensures c in cs[..taken] {
      var i :| 0 <= i < |cs| && cs[i] == c;
      assert i < taken;
      assert cs[..taken][i] == c;
    }
  }

  lemma RowsOfKeys(t: Table, ks: seq<Bytes>, prefix: Bytes, cs: seq<U64>)
    requires KeysOf(ks, prefix, cs) && forall k :: k in ks ==> k in t
    ensures forall i :: 0 <= i < |ks| ==>
              Key(prefix, cs[i]) in t && Rows(t, ks)[i] == Row(Key(prefix, cs[i]), t[Key(prefix, cs[i])])
  {
    assert forall i :: 0 <= i < |ks| ==> ks[i] in ks;
  }
}
