/** Message search: an index from words to events, answered per room by intersecting the streams of
    the words. */
module Search {
  import opened Wrappers
  import opened Bytes
  import K = KvTree
  import C = CommonElements

  // ---------- the index ----------

  function WordPrefix(short: U64, word: Text): Bytes {
    Be64(short) + (word + [SEP])
  }

  function TokenKey(short: U64, word: Text, id: Bytes): Bytes {
    WordPrefix(short, word) + id
  }

  lemma TokenKeyPrefix(short: U64, word: Text, other: U64, next: Text, id: Bytes)
    ensures WordPrefix(short, word) <= TokenKey(other, next, id) <==> short == other && word == next
  {
    var k := TokenKey(other, next, id);
    assert k == Be64(other) + (next + [SEP] + id);
    if WordPrefix(short, word) <= k {
      assert k[..8] == Be64(short) && k[..8] == Be64(other);
      Be64Injective(short, other);
      assert k[8..] == next + [SEP] + id && word + [SEP] + [] <= k[8..];
      PartPrefix(next, id, word, []);
    }
  }

  lemma TokenKeyInjective(short: U64, word: Text, id: Bytes, other: U64, next: Text, jd: Bytes)
    requires TokenKey(short, word, id) == TokenKey(other, next, jd)
    ensures short == other && word == next && id == jd
  {
    TokenKeyPrefix(short, word, other, next, jd);
    assert WordPrefix(short, word) <= TokenKey(short, word, id);
    var n := |WordPrefix(short, word)|;
    assert TokenKey(short, word, id)[n..] == id && TokenKey(other, next, jd)[n..] == jd;
  }

  /** Every row files an event of a room under the room and a word of the event. */
  ghost predicate IsIndex(t: K.Table) {
    forall k :: k in t ==> exists short: U64, word: Text, id: Bytes :: Files(k, short, word, id)
  }

  ghost predicate Files(k: Bytes, short: U64, word: Text, id: Bytes) {
    k == TokenKey(short, word, id) && Be64(short) <= id && short < U64_MAX
  }

  /** The scan of a word starts at the greatest possible room number. */
  function SeekKey(short: U64, word: Text): Bytes {
    WordPrefix(short, word) + Be64(U64_MAX)
  }

  lemma SeekCovers(short: U64, word: Text, id: Bytes)
    requires Be64(short) <= id && short < U64_MAX
    ensures LexLe(TokenKey(short, word, id), SeekKey(short, word))
  {
    var top := U64_MAX;
    LexCommonPrefix(WordPrefix(short, word), id, Be64(top));
    Be64Order(short, top);
    if Be64(short) == Be64(top) { Be64Injective(short, top); }
    LexHeads(Be64(short), id[8..], Be64(top), []);
    assert id == Be64(short) + id[8..] && Be64(top) + [] == Be64(top);
  }

  ghost predicate StrictlyDescending(ids: seq<Bytes>) {
    forall i, j :: 0 <= i < j < |ids| ==> LexLe(ids[j], ids[i]) && ids[i] != ids[j]
  }

  /** The events under one word, newest first. */
  ghost predicate IsStream(t: K.Table, short: U64, word: Text, ids: seq<Bytes>) {
    StrictlyDescending(ids) && forall id :: id in ids <==> TokenKey(short, word, id) in t
  }

  lemma ScanIsStream(t: K.Table, short: U64, word: Text, ks: seq<Bytes>, ids: seq<Bytes>)
    requires IsIndex(t) && ks == K.PrefixKeysFrom(t, WordPrefix(short, word), SeekKey(short, word), true)
    requires |ids| == |ks| && forall i :: 0 <= i < |ks| ==> ks[i] == TokenKey(short, word, ids[i])
    ensures IsStream(t, short, word, ids)
  {
    forall i, j | 0 <= i < j < |ids| ensures LexLe(ids[j], ids[i]) && ids[i] != ids[j] {
      assert K.After(ks[i], ks[j], true) && ks[i] != ks[j];
      LexCommonPrefix(WordPrefix(short, word), ids[j], ids[i]);
    }
    forall id ensures id in ids <==> TokenKey(short, word, id) in t {
      if id in ids {
        var i :| 0 <= i < |ids| && ids[i] == id;
        assert ks[i] in ks;
      }
      if TokenKey(short, word, id) in t { ScanFinds(t, short, word, ks, ids, id); }
    }
  }

  lemma ScanFinds(t: K.Table, short: U64, word: Text, ks: seq<Bytes>, ids: seq<Bytes>, id: Bytes)
    requires IsIndex(t) && ks == K.PrefixKeysFrom(t, WordPrefix(short, word), SeekKey(short, word), true)
    requires |ids| == |ks| && forall i :: 0 <= i < |ks| ==> ks[i] == TokenKey(short, word, ids[i])
    requires TokenKey(short, word, id) in t
    ensures id in ids
  {
    var k := TokenKey(short, word, id);
    var s: U64, w: Text, x: Bytes :| Files(k, s, w, x);
    TokenKeyInjective(short, word, id, s, w, x);
    SeekCovers(short, word, id);
    assert WordPrefix(short, word) <= k;
    var i :| 0 <= i < |ks| && ks[i] == k;
    TokenKeyInjective(short, word, id, short, word, ids[i]);
  }

  // ---------- one room ----------

  /** The streams run backwards, so elements are compared the other way round. */
  function Backwards(a: Bytes, b: Bytes): C.Ordering {
    if a == b then C.Equal else if LexLe(b, a) then C.Less else C.Greater
  }

  lemma BackwardsLawful()
    ensures C.Lawful(Backwards)
  {
    forall a, b ensures Backwards(a, b) == C.Less <==> Backwards(b, a) == C.Greater {
      LexTotal(a, b);
      if LexLe(a, b) && LexLe(b, a) { LexAntisym(a, b); }
    }
    forall a, b, c | Backwards(a, b) != C.Greater && Backwards(b, c) != C.Greater ensures Backwards(a, c) != C.Greater {
      if a != b && b != c { LexTrans(c, b, a); }
    }
  }

  lemma StreamSorted(ids: seq<Bytes>)
    requires StrictlyDescending(ids)
    ensures C.Sorted(Backwards, ids)
  {
  }

  lemma ContainsIs(ids: seq<Bytes>, x: Bytes)
    ensures C.Contains(Backwards, ids, x) <==> x in ids
  {
    assert Backwards(x, x) == C.Equal;
  }

  lemma {:induction false} CommonDescends(first: seq<Bytes>, others: seq<seq<Bytes>>)
    requires StrictlyDescending(first)
    ensures StrictlyDescending(C.Common(Backwards, first, others))
    decreases |first|
  {
    if first != [] {
      var n := |first| - 1;
      CommonDescends(first[..n], others);
      forall x | x in C.Common(Backwards, first[..n], others) ensures LexLe(first[n], x) && x != first[n] {
        C.CommonIs(Backwards, first[..n], others, x);
      }
    }
  }

  ghost predicate HasAllWords(t: K.Table, short: U64, words: seq<Text>, id: Bytes) {
    forall i :: 0 <= i < |words| ==> TokenKey(short, words[i], id) in t
  }

  lemma CommonIsHits(t: K.Table, short: U64, words: seq<Text>, streams: seq<seq<Bytes>>, id: Bytes)
    requires words != [] && |streams| == |words|
    requires forall i :: 0 <= i < |words| ==> IsStream(t, short, words[i], streams[i])
    ensures id in C.Common(Backwards, streams[0], streams[1..]) <==> HasAllWords(t, short, words, id)
  {
    var others := streams[1..];
    C.CommonIs(Backwards, streams[0], others, id);
    forall i | 0 <= i < |words| ensures TokenKey(short, words[i], id) in t <==> C.Contains(Backwards, streams[i], id) {
      assert IsStream(t, short, words[i], streams[i]);
      ContainsIs(streams[i], id);
    }
    assert forall i :: 0 <= i < |others| ==> others[i] == streams[i + 1];
    ContainsIs(streams[0], id);
    forall i | 1 <= i < |words| && C.InAll(Backwards, others, id) ensures C.Contains(Backwards, streams[i], id) {
      assert C.Contains(Backwards, others[i - 1], id);
    }
  }

  /** What a room answers: exactly the events that have every word, newest first. */
  ghost predicate IsAnswer(t: K.Table, short: U64, words: seq<Text>, ids: seq<Bytes>) {
    StrictlyDescending(ids) && forall id :: id in ids <==> HasAllWords(t, short, words, id)
  }

  // ---------- what the index says after any history ----------

  function Filed(t: K.Table, short: U64, id: Bytes, words: seq<Text>): K.Table {
    if words == [] then t
    else Filed(t, short, id, words[..|words| - 1])[TokenKey(short, words[|words| - 1], id) := []]
  }

  function Unfiled(t: K.Table, short: U64, id: Bytes, words: seq<Text>): K.Table {
    if words == [] then t
    else Unfiled(t, short, id, words[..|words| - 1]) - {TokenKey(short, words[|words| - 1], id)}
  }

  lemma {:induction false} FiledHas(t: K.Table, short: U64, id: Bytes, words: seq<Text>, k: Bytes)
    ensures k in Filed(t, short, id, words) <==>
            k in t || exists i :: 0 <= i < |words| && k == TokenKey(short, words[i], id)
    decreases |words|
  {
    if words != [] {
      var n := |words| - 1;
      FiledHas(t, short, id, words[..n], k);
      assert forall i :: 0 <= i < n ==> words[..n][i] == words[i];
    }
  }

  lemma {:induction false} UnfiledHas(t: K.Table, short: U64, id: Bytes, words: seq<Text>, k: Bytes)
    ensures k in Unfiled(t, short, id, words) <==>
            k in t && forall i :: 0 <= i < |words| ==> k != TokenKey(short, words[i], id)
    decreases |words|
  {
    if words != [] {
      var n := |words| - 1;
      UnfiledHas(t, short, id, words[..n], k);
      assert forall i :: 0 <= i < n ==> words[..n][i] == words[i];
    }
  }

  datatype Op = Op(index: bool, short: U64, id: Bytes, words: seq<Text>)

  ghost predicate OpOk(op: Op) {
    Be64(op.short) <= op.id && op.short < U64_MAX
  }

  /** The index after a history of indexing and deindexing. */
  function RunIndex(ops: seq<Op>): K.Table {
    if ops == [] then map[]
    else
      var op := ops[|ops| - 1];
      var t := RunIndex(ops[..|ops| - 1]);
      if op.index then Filed(t, op.short, op.id, op.words) else Unfiled(t, op.short, op.id, op.words)
  }

  predicate Touches(op: Op, short: U64, word: Text, id: Bytes) {
    op.short == short && op.id == id && word in op.words
  }

  /** The last operation on the event that names the word indexes it. */
  ghost predicate LastIndexed(ops: seq<Op>, short: U64, word: Text, id: Bytes) {
    exists i :: 0 <= i < |ops| && ops[i].index && Touches(ops[i], short, word, id)
                && forall j :: i < j < |ops| ==> !Touches(ops[j], short, word, id)
  }

  lemma NamesKey(op: Op, short: U64, word: Text, id: Bytes)
    ensures (exists i :: 0 <= i < |op.words| && TokenKey(short, word, id) == TokenKey(op.short, op.words[i], op.id))
            <==> Touches(op, short, word, id)
  {
    if i :| 0 <= i < |op.words| && TokenKey(short, word, id) == TokenKey(op.short, op.words[i], op.id) {
      TokenKeyInjective(short, word, id, op.short, op.words[i], op.id);
    }
    if Touches(op, short, word, id) {
      var i :| 0 <= i < |op.words| && op.words[i] == word;
    }
  }

  lemma LastStep(ops: seq<Op>, short: U64, word: Text, id: Bytes)
    requires ops != []
    ensures var op, rest := ops[|ops| - 1], ops[..|ops| - 1];
            LastIndexed(ops, short, word, id) <==>
            if Touches(op, short, word, id) then op.index else LastIndexed(rest, short, word, id)
  {
    var n := |ops| - 1;
    var op, rest := ops[n], ops[..n];
    assert forall i :: 0 <= i < n ==> rest[i] == ops[i];
    if Touches(op, short, word, id) && op.index { assert ops[n].index; }
    if !Touches(op, short, word, id) && LastIndexed(rest, short, word, id) {
      var i :| 0 <= i < n && rest[i].index && Touches(rest[i], short, word, id)
               && forall j :: i < j < n ==> !Touches(rest[j], short, word, id);
      assert ops[i].index;
    }
    if !Touches(op, short, word, id) && LastIndexed(ops, short, word, id) {
      var i :| 0 <= i < |ops| && ops[i].index && Touches(ops[i], short, word, id)
               && forall j :: i < j < |ops| ==> !Touches(ops[j], short, word, id);
      assert rest[i].index;
    }
  }

  /** A word leads to an event exactly when it was indexed after it was last deindexed. */
  lemma {:induction false} RunIndexHas(ops: seq<Op>, short: U64, word: Text, id: Bytes)
    ensures TokenKey(short, word, id) in RunIndex(ops) <==> LastIndexed(ops, short, word, id)
    decreases |ops|
  {
    if ops != [] {
      var n := |ops| - 1;
      var op, t, k := ops[n], RunIndex(ops[..n]), TokenKey(short, word, id);
      RunIndexHas(ops[..n], short, word, id);
      NamesKey(op, short, word, id);
      FiledHas(t, op.short, op.id, op.words, k);
      UnfiledHas(t, op.short, op.id, op.words, k);
      LastStep(ops, short, word, id);
    }
  }

  lemma {:induction false} RunIsIndex(ops: seq<Op>)
    requires forall i :: 0 <= i < |ops| && ops[i].index ==> OpOk(ops[i])
    ensures IsIndex(RunIndex(ops))
    decreases |ops|
  {
    if ops != [] {
      var n := |ops| - 1;
      var op, t := ops[n], RunIndex(ops[..n]);
      RunIsIndex(ops[..n]);
      forall k | k in RunIndex(ops) ensures exists short: U64, word: Text, id: Bytes :: Files(k, short, word, id) {
        FiledHas(t, op.short, op.id, op.words, k);
        UnfiledHas(t, op.short, op.id, op.words, k);
        if k !in t {
          var i :| 0 <= i < |op.words| && k == TokenKey(op.short, op.words[i], op.id);
          assert Files(k, op.short, op.words[i], op.id);
        }
      }
    }
  }

  ghost predicate IndexedAll(ops: seq<Op>, short: U64, words: seq<Text>, id: Bytes) {
    forall i :: 0 <= i < |words| ==> LastIndexed(ops, short, words[i], id)
  }

  lemma RunIndexSnoc(ops: seq<Op>, op: Op)
    ensures RunIndex(ops + [op]) ==
            if op.index then Filed(RunIndex(ops), op.short, op.id, op.words)
            else Unfiled(RunIndex(ops), op.short, op.id, op.words)
  {
    assert (ops + [op])[..|ops|] == ops;
  }

  /** An event just indexed is found by any of its words, one just deindexed by none of them, and an operation
      on another event or room changes nothing. */
  lemma OneMoreOp(ops: seq<Op>, op: Op, short: U64, query: seq<Text>, id: Bytes)
    ensures op.index && op.short == short && op.id == id && (forall i :: 0 <= i < |query| ==> query[i] in op.words) ==>
              IndexedAll(ops + [op], short, query, id)
    ensures !op.index && op.short == short && op.id == id && (exists i :: 0 <= i < |query| && query[i] in op.words) ==>
              !IndexedAll(ops + [op], short, query, id)
    ensures op.short != short || op.id != id ==>
              (IndexedAll(ops + [op], short, query, id) <==> IndexedAll(ops, short, query, id))
  {
    hide LastIndexed;
    assert (ops + [op])[..|ops|] == ops;
    forall i | 0 <= i < |query|
      ensures LastIndexed(ops + [op], short, query[i], id) <==>
              if op.short == short && op.id == id && query[i] in op.words then op.index
              else LastIndexed(ops, short, query[i], id)
    {
      LastStep(ops + [op], short, query[i], id);
    }
  }

  /** After any history, a room's answer holds an event exactly when each word of the query is
      indexed for it. */
  lemma AnswerAfterHistory(ops: seq<Op>, short: U64, words: seq<Text>, ids: seq<Bytes>, id: Bytes)
    requires IsAnswer(RunIndex(ops), short, words, ids)
    ensures id in ids <==> IndexedAll(ops, short, words, id)
  {
    forall i | 0 <= i < |words|
      ensures TokenKey(short, words[i], id) in RunIndex(ops) <==> LastIndexed(ops, short, words[i], id)
    {
      RunIndexHas(ops, short, words[i], id);
    }
  }

  // ---------- the service ----------

  lemma HavePrefix(t: K.Table, prefix: Bytes, from: Bytes)
    ensures var ks := K.PrefixKeysFrom(t, prefix, from, true); forall i :: 0 <= i < |ks| ==> prefix <= ks[i]
  {
    hide LexLe;
    var ks := K.PrefixKeysFrom(t, prefix, from, true);
    forall i | 0 <= i < |ks| ensures prefix <= ks[i] { assert ks[i] in ks; }
  }

  method StripAll(rows: seq<K.Row>, prefix: Bytes) returns (ids: seq<Bytes>)
    requires forall i :: 0 <= i < |rows| ==> prefix <= rows[i].key
    ensures |ids| == |rows| && forall i :: 0 <= i < |rows| ==> rows[i].key == prefix + ids[i]
  {
    ids := [];
    for i := 0 to |rows|
      invariant |ids| == i && forall j :: 0 <= j < i ==> rows[j].key == prefix + ids[j]
    {
      ids := ids + [rows[i].key[|prefix|..]];
    }
  }

  /** `ops` is the history of indexing and deindexing. */
  class SearchIndex {
    const tokenids: K.KvTree
    ghost var ops: seq<Op>

    ghost predicate Valid()
      reads this, tokenids
    {
      tokenids.table == RunIndex(ops) && forall i :: 0 <= i < |ops| && ops[i].index ==> OpOk(ops[i])
    }

    constructor (tokenids: K.KvTree)
      requires tokenids.table == map[]
      ensures Valid() && ops == [] && this.tokenids == tokenids
    {
      this.tokenids, ops := tokenids, [];
    }

    method IndexPdu(short: U64, id: Bytes, words: seq<Text>)
      requires Valid() && Be64(short) <= id && short < U64_MAX
      modifies this, tokenids
      ensures Valid() && ops == old(ops) + [Op(true, short, id, words)]
      ensures forall k :: k in tokenids.table <==>
                k in old(tokenids.table) || exists i :: 0 <= i < |words| && k == TokenKey(short, words[i], id)
    {
      ghost var t := tokenids.table;
      for i := 0 to |words|
        invariant tokenids.table == Filed(t, short, id, words[..i]) && ops == old(ops)
      {
        assert words[..i + 1][..i] == words[..i];
        tokenids.Insert(TokenKey(short, words[i], id), []);
      }
      assert words[..|words|] == words;
      forall k { FiledHas(t, short, id, words, k); }
      RunIndexSnoc(ops, Op(true, short, id, words));
      ops := ops + [Op(true, short, id, words)];
    }

    method DeindexPdu(short: U64, id: Bytes, words: seq<Text>)
      requires Valid()
      modifies this, tokenids
      ensures Valid() && ops == old(ops) + [Op(false, short, id, words)]
      ensures forall k :: k in tokenids.table <==>
                k in old(tokenids.table) && forall i :: 0 <= i < |words| ==> k != TokenKey(short, words[i], id)
    {
      ghost var t := tokenids.table;
      for i := 0 to |words|
        invariant tokenids.table == Unfiled(t, short, id, words[..i]) && ops == old(ops)
      {
        assert words[..i + 1][..i] == words[..i];
        tokenids.Remove(TokenKey(short, words[i], id));
      }
      assert words[..|words|] == words;
      forall k { UnfiledHas(t, short, id, words, k); }
      RunIndexSnoc(ops, Op(false, short, id, words));
      ops := ops + [Op(false, short, id, words)];
    }

    method WordStream(short: U64, word: Text) returns (ids: seq<Bytes>)
      requires IsIndex(tokenids.table)
      ensures IsStream(tokenids.table, short, word, ids)
    {
      hide IsIndex, IsStream, LexLe;
      var prefix := WordPrefix(short, word);
      var rows := tokenids.IterWithin(prefix, SeekKey(short, word), true);
      ghost var ks := K.PrefixKeysFrom(tokenids.table, prefix, SeekKey(short, word), true);
      HavePrefix(tokenids.table, prefix, SeekKey(short, word));
      ids := StripAll(rows, prefix);
      ScanIsStream(tokenids.table, short, word, ks, ids);
    }

    /** No words, no answer; otherwise, after every history, the events indexed for each word. */
    method SearchPdus(short: U64, words: seq<Text>) returns (r: Option<seq<Bytes>>)
      requires Valid()
      ensures r.None? <==> words == []
      ensures r.Some? ==> StrictlyDescending(r.value)
      ensures r.Some? ==> forall id :: id in r.value <==> IndexedAll(ops, short, words, id)
    {
      hide RunIndex, OpOk;
      RunIsIndex(ops);
      var streams: seq<seq<Bytes>> := [];
      for i := 0 to |words|
        invariant |streams| == i
        invariant forall j :: 0 <= j < i ==> IsStream(tokenids.table, short, words[j], streams[j])
      {
        var ids := WordStream(short, words[i]);
        streams := streams + [ids];
      }
      BackwardsLawful();
      forall i | 0 <= i < |streams| ensures C.Sorted(Backwards, streams[i]) {
        assert IsStream(tokenids.table, short, words[i], streams[i]);
        StreamSorted(streams[i]);
      }
      r := C.Intersect(Backwards, streams);
      if words != [] {
        assert IsStream(tokenids.table, short, words[0], streams[0]);
        CommonDescends(streams[0], streams[1..]);
        forall id ensures id in r.value <==> HasAllWords(tokenids.table, short, words, id) {
          CommonIsHits(tokenids.table, short, words, streams, id);
        }
        forall id ensures id in r.value <==> IndexedAll(ops, short, words, id) {
          AnswerAfterHistory(ops, short, words, r.value, id);
        }
      }
    }
  }
}
