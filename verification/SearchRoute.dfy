/** The search request as a whole: the rooms asked for, each answered from the index, merged and cut into
    pages. */
module SearchRoute {
  import opened Wrappers
  import opened Bytes
  import S = Search
  import M = SearchMerge
  import P = SearchPages

  /** In how many of the rooms, repeated ones counted again, the event has every word. */
  ghost function Hits(ops: seq<S.Op>, rooms: seq<U64>, words: seq<Text>, id: Bytes): nat {
    if rooms == [] || words == [] then 0
    else (if S.IndexedAll(ops, rooms[0], words, id) then 1 else 0) + Hits(ops, rooms[1..], words, id)
  }

  /** Everything the request matches, newest first. */
  ghost predicate IsMerged(ops: seq<S.Op>, rooms: seq<U64>, words: seq<Text>, all: seq<Bytes>) {
    M.Descending(all) && forall id :: multiset(all)[id] == Hits(ops, rooms, words, id)
  }

  /** The page at `skip` and its next token. */
  ghost predicate IsPage(ops: seq<S.Op>, rooms: seq<U64>, words: seq<Text>, visible: Bytes -> bool, skip: nat,
                         limit: nat, page: seq<Bytes>, next: Option<nat>) {
    exists all :: IsMerged(ops, rooms, words, all)
                  && page == P.PageOf(M.Take(all, skip + limit), visible, skip, limit)
                  && next == P.Token(all, visible, skip, limit)
  }

  // ---------- the merge and the index ----------

  ghost predicate IsRoomAnswer(ops: seq<S.Op>, room: U64, words: seq<Text>, ids: seq<Bytes>) {
    S.StrictlyDescending(ids) && forall id :: id in ids <==> S.IndexedAll(ops, room, words, id)
  }

  lemma {:induction false} OnceEach(ids: seq<Bytes>, id: Bytes)
    requires S.StrictlyDescending(ids)
    ensures multiset(ids)[id] == if id in ids then 1 else 0
    decreases |ids|
  {
    hide LexLe;
    if ids != [] {
      assert ids == [ids[0]] + ids[1..];
      OnceEach(ids[1..], id);
      assert ids[0] !in ids[1..];
    }
  }

  lemma {:induction false} UnionCounts(ops: seq<S.Op>, rooms: seq<U64>, words: seq<Text>, streams: seq<seq<Bytes>>,
                                       id: Bytes)
    requires words != [] && |streams| == |rooms|
    requires forall i :: 0 <= i < |rooms| ==> IsRoomAnswer(ops, rooms[i], words, streams[i])
    ensures M.Union(streams)[id] == Hits(ops, rooms, words, id)
    decreases |rooms|
  {
    hide S.IndexedAll;
    if rooms != [] {
      assert IsRoomAnswer(ops, rooms[0], words, streams[0]);
      OnceEach(streams[0], id);
      assert forall i :: 0 <= i < |rooms| - 1 ==> rooms[1..][i] == rooms[i + 1] && streams[1..][i] == streams[i + 1];
      UnionCounts(ops, rooms[1..], words, streams[1..], id);
    }
  }

  /** There is one such list, so pages of different requests fit together. */
  lemma MergedUnique(ops: seq<S.Op>, rooms: seq<U64>, words: seq<Text>, a: seq<Bytes>, b: seq<Bytes>)
    requires IsMerged(ops, rooms, words, a) && IsMerged(ops, rooms, words, b)
    ensures a == b
  {
    hide Hits, LexLe;
    assert multiset(a) == multiset(b);
    M.ListIsTop(multiset(a), a);
    M.ListIsTop(multiset(a), b);
    M.TopUnique(multiset(a), |multiset(a)|, a, b);
  }

  lemma {:induction false} HitsSome(ops: seq<S.Op>, rooms: seq<U64>, words: seq<Text>, id: Bytes)
    requires words != []
    ensures Hits(ops, rooms, words, id) > 0 <==> exists i :: 0 <= i < |rooms| && S.IndexedAll(ops, rooms[i], words, id)
    decreases |rooms|
  {
    hide S.IndexedAll;
    if rooms != [] {
      HitsSome(ops, rooms[1..], words, id);
      if i :| 0 <= i < |rooms| && S.IndexedAll(ops, rooms[i], words, id) {
        if i > 0 { assert rooms[1..][i - 1] == rooms[i]; }
      }
      if i :| 0 <= i < |rooms[1..]| && S.IndexedAll(ops, rooms[1..][i], words, id) {
        assert rooms[i + 1] == rooms[1..][i];
      }
    }
  }

  /** The result holds exactly the events that have every word in one of the rooms. */
  lemma MergedHas(ops: seq<S.Op>, rooms: seq<U64>, words: seq<Text>, all: seq<Bytes>, id: Bytes)
    requires IsMerged(ops, rooms, words, all) && words != []
    ensures id in all <==> exists i :: 0 <= i < |rooms| && S.IndexedAll(ops, rooms[i], words, id)
  {
    hide Hits, S.IndexedAll;
    HitsSome(ops, rooms, words, id);
    assert id in all <==> multiset(all)[id] > 0;
  }

  /** An event is indexed for the room that its id names. */
  lemma IndexedInOwnRoom(ops: seq<S.Op>, room: U64, words: seq<Text>, id: Bytes)
    requires words != [] && S.IndexedAll(ops, room, words, id)
    requires forall i :: 0 <= i < |ops| && ops[i].index ==> S.OpOk(ops[i])
    ensures Be64(room) <= id
  {
    assert S.LastIndexed(ops, room, words[0], id);
  }

  lemma {:induction false} HitsOnce(ops: seq<S.Op>, rooms: seq<U64>, words: seq<Text>, id: Bytes)
    requires forall i :: 0 <= i < |ops| && ops[i].index ==> S.OpOk(ops[i])
    requires forall i, j :: 0 <= i < j < |rooms| ==> rooms[i] != rooms[j]
    ensures Hits(ops, rooms, words, id) <= 1
    decreases |rooms|
  {
    hide S.IndexedAll, S.OpOk;
    if rooms != [] && words != [] {
      HitsOnce(ops, rooms[1..], words, id);
      HitsSome(ops, rooms[1..], words, id);
      if i :| 0 <= i < |rooms[1..]| && S.IndexedAll(ops, rooms[1..][i], words, id)
              && S.IndexedAll(ops, rooms[0], words, id) {
        IndexedInOwnRoom(ops, rooms[0], words, id);
        IndexedInOwnRoom(ops, rooms[i + 1], words, id);
        assert id[..8] == Be64(rooms[0]) && id[..8] == Be64(rooms[i + 1]);
        Be64Injective(rooms[0], rooms[i + 1]);
      }
    }
  }

  /** A request that names each room once gets each event once. */
  lemma NoEventTwice(ops: seq<S.Op>, rooms: seq<U64>, words: seq<Text>, all: seq<Bytes>, i: nat, j: nat)
    requires IsMerged(ops, rooms, words, all) && i < j < |all|
    requires forall i :: 0 <= i < |ops| && ops[i].index ==> S.OpOk(ops[i])
    requires forall i, j :: 0 <= i < j < |rooms| ==> rooms[i] != rooms[j]
    ensures all[i] != all[j]
  {
    HitsOnce(ops, rooms, words, all[i]);
    assert all == all[..j] + [all[j]] + all[j + 1..];
    assert all[..j][i] == all[i];
    assert all[i] in multiset(all[..j]);
  }

  /** A user who may see all results and follows the tokens to the end has seen exactly the events that
      have every word in one of the rooms. */
  lemma EverythingIsFound(ops: seq<S.Op>, rooms: seq<U64>, words: seq<Text>, visible: Bytes -> bool, limit: nat,
                          all: seq<Bytes>, skips: seq<nat>, id: Bytes)
    requires IsMerged(ops, rooms, words, all) && words != [] && limit > 0
    requires P.Ended(all, visible, limit, skips) && forall i :: 0 <= i < |all| ==> visible(all[i])
    ensures id in P.Seen(all, visible, limit, skips) <==>
            exists i :: 0 <= i < |rooms| && S.IndexedAll(ops, rooms[i], words, id)
  {
    hide IsMerged, S.IndexedAll, P.Seen, P.Shown, P.Ended;
    P.CompleteIff(all, visible, limit, |all|, skips);
    P.ShownOfVisible(visible, all);
    MergedHas(ops, rooms, words, all, id);
  }

  // ---------- the request ----------

  /** Refused if the user is not in one of the rooms. */
  method SearchEvents(index: S.SearchIndex, joined: set<U64>, rooms: seq<U64>, words: seq<Text>, visible: Bytes -> bool,
                      skip: nat, limit: nat)
    returns (r: Result<(seq<Bytes>, Option<nat>), string>)
    requires index.Valid()
    ensures r.Ok? <==> forall i :: 0 <= i < |rooms| ==> rooms[i] in joined
    ensures r.Ok? ==> IsPage(index.ops, rooms, words, visible, skip, limit, r.value.0, r.value.1)
  {
    var streams: seq<seq<Bytes>> := [];
    for i := 0 to |rooms|
      invariant forall j :: 0 <= j < i ==> rooms[j] in joined
      invariant |streams| == if words == [] then 0 else i
      invariant words != [] ==> forall j :: 0 <= j < i ==> IsRoomAnswer(index.ops, rooms[j], words, streams[j])
    {
      if rooms[i] !in joined {
        return Err("You don't have permission to view this room.");
      }
      var answer := index.SearchPdus(rooms[i], words);
      if answer.Some? { streams := streams + [answer.value]; }
    }
    ghost var all := Merged(index.ops, rooms, words, streams);
    var page, next := P.SearchEvents(streams, visible, skip, limit, all);
    return Ok((page, next));
  }

  lemma Merged(ops: seq<S.Op>, rooms: seq<U64>, words: seq<Text>, streams: seq<seq<Bytes>>) returns (all: seq<Bytes>)
    requires |streams| == if words == [] then 0 else |rooms|
    requires words != [] ==> forall i :: 0 <= i < |rooms| ==> IsRoomAnswer(ops, rooms[i], words, streams[i])
    ensures M.AllDescending(streams) && M.IsTop(M.Union(streams), |M.Union(streams)|, all)
    ensures IsMerged(ops, rooms, words, all)
  {
    hide LexLe;
    all := M.TopExists(M.Union(streams));
    M.ListIsTop(M.Union(streams), all);
    forall i | 0 <= i < |streams| ensures M.Descending(streams[i]) {
      assert IsRoomAnswer(ops, rooms[i], words, streams[i]);
    }
    forall id ensures multiset(all)[id] == Hits(ops, rooms, words, id) {
      if words != [] { UnionCounts(ops, rooms, words, streams, id); }
    }
  }
}
