/** Prefix watchers of a table. A wake looks for watched prefixes of the changed key under the
    read lock and only then takes the write lock to remove and signal them, so registrations and
    other wakes may come in between. */
module Watchers {
  import opened Bytes

  type Channel = nat

  // ---------- the two critical sections, as values ----------

  /** The watched prefixes of `key` shorter than `bound`, shortest first. */
  function Triggered(entries: map<Bytes, Channel>, key: Bytes, bound: nat): (ps: seq<Bytes>)
    requires bound <= |key| + 1
    ensures forall p :: p in ps <==> p in entries && p <= key && |p| < bound
  {
    if bound == 0 then []
    else
      var p := key[..bound - 1];
      assert forall q :: q <= key && |q| == bound - 1 ==> q == p;
      Triggered(entries, key, bound - 1) + if p in entries then [p] else []
  }

  /** The channels registered under any of `ps`. */
  function Channels(entries: map<Bytes, Channel>, ps: seq<Bytes>): set<Channel> {
    set p | p in ps && p in entries :: entries[p]
  }

  lemma ChannelsSnoc(entries: map<Bytes, Channel>, ps: seq<Bytes>, p: Bytes)
    ensures Channels(entries, ps + [p]) == Channels(entries, ps) + if p in entries then {entries[p]} else {}
    ensures (set q | q in ps + [p]) == (set q | q in ps) + {p}
  {
  }

  // ---------- the object ----------

  class Watchers {
    var entries: map<Bytes, Channel>
    var sent: set<Channel>
    var created: nat

    /** Every watched prefix has its own channel, not yet signalled. */
    ghost predicate Valid()
      reads this
    {
      && (forall p :: p in entries ==> entries[p] < created && entries[p] !in sent)
      && (forall c :: c in sent ==> c < created)
      && (forall p, q :: p in entries && q in entries && entries[p] == entries[q] ==> p == q)
    }

    constructor ()
      ensures Valid() && entries == map[] && sent == {} && created == 0
    {
      entries, sent, created := map[], {}, 0;
    }

    method Watch(prefix: Bytes) returns (rx: Channel)
      requires Valid()
      modifies this
      ensures Valid() && sent == old(sent)
      ensures entries == old(entries)[prefix := rx]
      ensures prefix in old(entries) ==> rx == old(entries)[prefix] && created == old(created)
      ensures prefix !in old(entries) ==> rx == old(created) && created == old(created) + 1
    {
      if prefix in entries {
        rx := entries[prefix];
      } else {
        rx := created;
        created := created + 1;
        entries := entries[prefix := rx];
      }
    }

    method WakeRead(key: Bytes) returns (triggered: seq<Bytes>)
      ensures triggered == Triggered(entries, key, |key| + 1)
    {
      triggered := [];
      for length := 0 to |key| + 1
        invariant triggered == Triggered(entries, key, length)
      {
        if key[..length] in entries {
          triggered := triggered + [key[..length]];
        }
      }
    }

    /** Signals and forgets the watchers of one prefix, if any. */
    method Send(p: Bytes)
      requires Valid()
      modifies this
      ensures Valid() && created == old(created) && entries == old(entries) - {p}
      ensures sent == old(sent) + if p in old(entries) then {old(entries)[p]} else {}
    {
      if p in entries {
        sent := sent + {entries[p]};
        entries := entries - {p};
      }
    }

    method WakeWrite(triggered: seq<Bytes>)
      requires Valid()
      modifies this
      ensures Valid() && created == old(created)
      ensures entries == old(entries) - set p | p in triggered
      ensures sent == old(sent) + Channels(old(entries), triggered)
    {
      for i := 0 to |triggered|
        invariant Valid() && created == old(created)
        invariant entries == old(entries) - set p | p in triggered[..i]
        invariant sent == old(sent) + Channels(old(entries), triggered[..i])
      {
        var p := triggered[i];
        assert triggered[..i + 1] == triggered[..i] + [p];
        ChannelsSnoc(old(entries), triggered[..i], p);
        Send(p);
      }
      assert triggered[..|triggered|] == triggered;
    }

    /** Without interference, exactly the watchers of prefixes of `key` are signalled and forgotten. */
    method Wake(key: Bytes)
      requires Valid()
      modifies this
      ensures Valid() && created == old(created)
      ensures forall p :: p in old(entries) ==>
                if p <= key then p !in entries && old(entries)[p] in sent
                else p in entries && entries[p] == old(entries)[p]
      ensures entries.Keys <= old(entries).Keys
      ensures sent == old(sent) + Channels(old(entries), Triggered(old(entries), key, |key| + 1))
    {
      var triggered := WakeRead(key);
      if triggered != [] {
        WakeWrite(triggered);
      }
    }
  }

  // ---------- interleavings ----------

  datatype Watcher = Watcher(prefix: Bytes, rx: Channel)

  /** An insert that wakes: after its write it has a read phase and then a write phase. `seen` are
      the watchers registered when the read phase ran. */
  datatype Insert =
    | Written(key: Bytes)
    | Looked(key: Bytes, triggered: seq<Bytes>, seen: set<nat>)
    | Finished(key: Bytes, seen: set<nat>)

  /** `quiet` are the keys that a batch put into the table and no insert has written since; `sent` says
      on whose account a channel was signalled. */
  datatype State = State(
    table: set<Bytes>,
    quiet: set<Bytes>,
    entries: map<Bytes, Channel>,
    created: nat,
    origin: map<Channel, Bytes>,
    sent: map<Channel, nat>,
    watchers: map<nat, Watcher>,
    inserts: map<nat, Insert>)

  datatype Event =
    | Register(w: nat, prefix: Bytes)
    | Write(i: nat, key: Bytes)
    | ReadPhase(i: nat)
    | WritePhase(i: nat)
    | Batch(keys: set<Bytes>)  // batch inserts and counter increments wake nobody
    | Remove(key: Bytes)

  const Start := State({}, {}, map[], 0, map[], map[], map[], map[])

  predicate Enabled(s: State, e: Event) {
    match e
    case Register(w, _) => w !in s.watchers
    case Write(i, _) => i !in s.inserts
    case ReadPhase(i) => i in s.inserts && s.inserts[i].Written?
    case WritePhase(i) => i in s.inserts && s.inserts[i].Looked?
    case Batch(_) => true
    case Remove(_) => true
  }

  function Apply(s: State, e: Event): State
    requires Enabled(s, e)
  {
    match e
    case Register(w, prefix) =>
      if prefix in s.entries then
        s.(watchers := s.watchers[w := Watcher(prefix, s.entries[prefix])])
      else
        s.(watchers := s.watchers[w := Watcher(prefix, s.created)],
           entries := s.entries[prefix := s.created],
           origin := s.origin[s.created := prefix],
           created := s.created + 1)
    case Write(i, key) =>
      s.(table := s.table + {key}, quiet := s.quiet - {key}, inserts := s.inserts[i := Written(key)])
    case ReadPhase(i) =>
      var key := s.inserts[i].key;
      s.(inserts := s.inserts[i := Looked(key, Triggered(s.entries, key, |key| + 1), s.watchers.Keys)])
    case WritePhase(i) =>
      var ps := s.inserts[i].triggered;
      s.(entries := s.entries - (set p | p in ps),
         sent := s.sent + (map c | c in Channels(s.entries, ps) :: i),
         inserts := s.inserts[i := Finished(s.inserts[i].key, s.inserts[i].seen)])
    case Batch(keys) => s.(table := s.table + keys, quiet := s.quiet + (keys - s.table))
    case Remove(key) => s.(table := s.table - {key}, quiet := s.quiet - {key})
  }

  ghost predicate Step(s: State, e: Event, t: State) {
    Enabled(s, e) && t == Apply(s, e)
  }

  ghost predicate Next(s: State, t: State) {
    exists e: Event :: Step(s, e, t)
  }

  ghost predicate Run(run: seq<State>) {
    |run| > 0 && run[0] == Start && forall k :: 0 <= k < |run| - 1 ==> Next(run[k], run[k + 1])
  }

  ghost predicate Signalled(s: State, w: nat)
    requires w in s.watchers
  {
    s.watchers[w].rx in s.sent
  }

  /** A watcher not yet signalled is still reachable through its entry. */
  ghost predicate Reachable(s: State, w: nat)
    requires w in s.watchers
  {
    Signalled(s, w)
    || (s.watchers[w].prefix in s.entries && s.entries[s.watchers[w].prefix] == s.watchers[w].rx)
  }

  ghost predicate ChannelsOk(s: State) {
    && (forall p :: p in s.entries ==>
          s.entries[p] in s.origin && s.origin[s.entries[p]] == p && s.entries[p] !in s.sent)
    && (forall c :: c in s.origin ==> c < s.created)
    && (forall c :: c in s.sent ==>
          c in s.origin && s.sent[c] in s.inserts && s.origin[c] <= s.inserts[s.sent[c]].key)
  }

  ghost predicate WatchersOk(s: State) {
    forall w :: w in s.watchers ==>
      && s.watchers[w].rx in s.origin && s.origin[s.watchers[w].rx] == s.watchers[w].prefix
      && Reachable(s, w)
  }

  /** What a wake owes to the watchers it found registered. */
  ghost predicate Kept(s: State, i: nat)
    requires i in s.inserts
  {
    match s.inserts[i]
    case Written(_) => true
    case Looked(key, triggered, seen) =>
      && seen <= s.watchers.Keys && (forall p :: p in triggered ==> p <= key)
      && (forall w :: w in seen && s.watchers[w].prefix <= key ==>
            Signalled(s, w) || s.watchers[w].prefix in triggered)
    case Finished(key, seen) =>
      && seen <= s.watchers.Keys
      && (forall w :: w in seen && s.watchers[w].prefix <= key ==> Signalled(s, w))
  }

  ghost predicate Inv(s: State) {
    ChannelsOk(s) && WatchersOk(s) && forall i :: i in s.inserts ==> Kept(s, i)
  }

  lemma ReadPhaseKeeps(s: State, i: nat)
    requires Inv(s) && Enabled(s, ReadPhase(i))
    ensures Inv(Apply(s, ReadPhase(i)))
  {
    var t := Apply(s, ReadPhase(i));
    assert Kept(t, i);
    forall j | j in t.inserts ensures Kept(t, j) { if j != i { assert Kept(s, j); } }
  }

  lemma WritePhaseKeeps(s: State, i: nat)
    requires Inv(s) && Enabled(s, WritePhase(i))
    ensures Inv(Apply(s, WritePhase(i)))
  {
    var t := Apply(s, WritePhase(i));
    var ps := s.inserts[i].triggered;
    assert Kept(s, i);
    forall w | w in s.watchers && s.watchers[w].prefix in ps
      ensures Signalled(t, w)
    {
      assert Reachable(s, w);
    }
    forall j | j in t.inserts ensures Kept(t, j) { assert Kept(s, j); }
  }

  lemma RegisterOwes(s: State, w: nat, prefix: Bytes, j: nat)
    requires Enabled(s, Register(w, prefix)) && j in s.inserts && Kept(s, j)
    ensures Kept(Apply(s, Register(w, prefix)), j)
  {
  }

  lemma RegisterChannels(s: State, w: nat, prefix: Bytes)
    requires ChannelsOk(s) && Enabled(s, Register(w, prefix))
    ensures ChannelsOk(Apply(s, Register(w, prefix)))
  {
    assert s.created !in s.origin;
  }

  lemma RegisterWatchers(s: State, w: nat, prefix: Bytes)
    requires ChannelsOk(s) && WatchersOk(s) && Enabled(s, Register(w, prefix))
    ensures WatchersOk(Apply(s, Register(w, prefix)))
  {
    var t := Apply(s, Register(w, prefix));
    assert s.created !in s.origin;
    forall v | v in s.watchers ensures Reachable(t, v) { assert Reachable(s, v); }
  }

  lemma RegisterKeeps(s: State, w: nat, prefix: Bytes)
    requires Inv(s) && Enabled(s, Register(w, prefix))
    ensures Inv(Apply(s, Register(w, prefix)))
  {
    var t := Apply(s, Register(w, prefix));
    RegisterChannels(s, w, prefix);
    RegisterWatchers(s, w, prefix);
    forall j | j in t.inserts ensures Kept(t, j) { RegisterOwes(s, w, prefix, j); }
  }

  lemma StepKeeps(s: State, e: Event)
    requires Inv(s) && Enabled(s, e)
    ensures Inv(Apply(s, e))
  {
    match e
    case Register(w, prefix) => RegisterKeeps(s, w, prefix);
    case ReadPhase(i) => ReadPhaseKeeps(s, i);
    case WritePhase(i) => WritePhaseKeeps(s, i);
    case Write(i, key) =>
      var t := Apply(s, e);
      forall w | w in t.watchers ensures Reachable(t, w) { assert Reachable(s, w); }
      forall j | j in t.inserts ensures Kept(t, j) { if j != i { assert Kept(s, j); } }
    case _ =>
      var t := Apply(s, e);
      forall w | w in t.watchers ensures Reachable(t, w) { assert Reachable(s, w); }
      forall j | j in t.inserts ensures Kept(t, j) { assert Kept(s, j); }
  }

  lemma {:induction false} RunInv(run: seq<State>, k: nat)
    requires Run(run) && k < |run|
    ensures Inv(run[k])
  {
    if k > 0 {
      RunInv(run, k - 1);
      assert Next(run[k - 1], run[k]);
      var e: Event :| Step(run[k - 1], e, run[k]);
      StepKeeps(run[k - 1], e);
    }
  }

  /** In every interleaving, a watcher registered before the read phase of a wake on a key that
      extends its prefix has been signalled when that wake ends. */
  lemma NoLostWake(run: seq<State>, k: nat, i: nat, w: nat)
    requires Run(run) && k < |run|
    requires i in run[k].inserts && run[k].inserts[i].Finished? && w in run[k].inserts[i].seen
    requires w in run[k].watchers && run[k].watchers[w].prefix <= run[k].inserts[i].key
    ensures Signalled(run[k], w)
  {
    RunInv(run, k);
    assert Kept(run[k], i);
  }

  /** What one step leaves in place, and where new things come from. */
  lemma StepGrows(s: State, e: Event, t: State)
    requires Step(s, e, t)
    ensures forall w :: w in s.watchers ==> w in t.watchers && t.watchers[w] == s.watchers[w]
    ensures forall i :: i in s.inserts ==>
              i in t.inserts && t.inserts[i].key == s.inserts[i].key
              && (!s.inserts[i].Written? ==> !t.inserts[i].Written? && t.inserts[i].seen == s.inserts[i].seen)
    ensures forall i :: i in t.inserts && !t.inserts[i].Written? ==>
              i in s.inserts && (s.inserts[i].Written? ==> t.inserts[i].seen == s.watchers.Keys)
    ensures forall c :: c in t.sent && c !in s.sent ==> e.WritePhase? && t.sent[c] == e.i
    ensures forall w :: w in t.watchers && w !in s.watchers ==> e.Register? && t.sent == s.sent
    ensures forall key :: key in t.table && (key !in s.table || key in s.quiet) && key !in t.quiet ==>
              e.Write? && e.i !in s.inserts && e.i in t.inserts && t.inserts[e.i].key == key
  {
  }

  /** Whoever has been signalled was signalled, after registering, by the write phase of an insert of
      a key extending their prefix. */
  lemma {:induction false} NoSpuriousWake(run: seq<State>, b: nat, w: nat) returns (k: nat, i: nat)
    requires Run(run) && b < |run| && w in run[b].watchers && Signalled(run[b], w)
    ensures k < b && w in run[k].watchers && run[k].watchers[w] == run[b].watchers[w] && !Signalled(run[k], w)
    ensures Step(run[k], WritePhase(i), run[k + 1]) && w in run[k + 1].watchers && Signalled(run[k + 1], w)
    ensures run[b].watchers[w].prefix <= run[k].inserts[i].key
    decreases b
  {
    hide Apply, Enabled;
    RunInv(run, b);
    var s, t := run[b - 1], run[b];
    assert Next(s, t);
    var e: Event :| Step(s, e, t);
    StepGrows(s, e, t);
    RunInv(run, b - 1);
    if w !in s.watchers {
      RegisterIsUnsignalled(s, e, t, w);
    } else if Signalled(s, w) {
      k, i := NoSpuriousWake(run, b - 1, w);
    } else {
      k, i := b - 1, e.i;
      assert e == WritePhase(i);
      assert t.sent[t.watchers[w].rx] == i && t.origin[t.watchers[w].rx] == t.watchers[w].prefix;
      WritesOwnKey(s, i, t);
    }
  }

  lemma RegisterIsUnsignalled(s: State, e: Event, t: State, w: nat)
    requires Inv(s) && Step(s, e, t) && w in t.watchers && w !in s.watchers
    ensures !Signalled(t, w)
  {
  }

  lemma WritesOwnKey(s: State, i: nat, t: State)
    requires Step(s, WritePhase(i), t)
    ensures i in s.inserts && i in t.inserts && s.inserts[i].key == t.inserts[i].key
  {
  }

  /** What is registered stays registered, and a later read phase sees it. */
  lemma {:induction false} LaterInsertSees(run: seq<State>, a: nat, b: nat, i: nat, w: nat)
    requires Run(run) && a <= b < |run| && w in run[a].watchers && i !in run[a].inserts
    ensures w in run[b].watchers && run[b].watchers[w] == run[a].watchers[w]
    ensures i in run[b].inserts && !run[b].inserts[i].Written? ==> w in run[b].inserts[i].seen
    decreases b
  {
    hide Apply, Enabled;
    if a < b {
      LaterInsertSees(run, a, b - 1, i, w);
      var s, t := run[b - 1], run[b];
      assert Next(s, t);
      var e: Event :| Step(s, e, t);
      StepGrows(s, e, t);
    }
  }

  /** A key that is there and not quiet was written by an insert that had not started before. */
  lemma {:induction false} KeyComesFromInsert(run: seq<State>, a: nat, b: nat, key: Bytes)
    requires Run(run) && a <= b < |run|
    requires key !in run[a].table && key in run[b].table && key !in run[b].quiet
    ensures exists i :: i in run[b].inserts && i !in run[a].inserts && run[b].inserts[i].key == key
    decreases b
  {
    var s, t := run[b - 1], run[b];
    assert Next(s, t);
    var e: Event :| Step(s, e, t);
    StepGrows(s, e, t);
    InsertsStay(run, a, b - 1);
    if key in s.table && key !in s.quiet {
      KeyComesFromInsert(run, a, b - 1, key);
      var i :| i in s.inserts && i !in run[a].inserts && s.inserts[i].key == key;
      assert i in t.inserts && t.inserts[i].key == key;
    } else {
      assert t.inserts[e.i].key == key;
    }
  }

  lemma {:induction false} InsertsStay(run: seq<State>, a: nat, b: nat)
    requires Run(run) && a <= b < |run|
    ensures run[a].inserts.Keys <= run[b].inserts.Keys
    decreases b
  {
    if a < b {
      InsertsStay(run, a, b - 1);
      assert Next(run[b - 1], run[b]);
      var e: Event :| Step(run[b - 1], e, run[b]);
      StepGrows(run[b - 1], e, run[b]);
    }
  }

  /** The promise to a reader who registers, looks and misses a key: once the key is there and
      the inserts of it that began since have ended, the reader has been signalled. */
  lemma NoLostUpdate(run: seq<State>, a: nat, b: nat, key: Bytes, w: nat)
    requires Run(run) && a <= b < |run|
    requires w in run[a].watchers && run[a].watchers[w].prefix <= key
    requires key !in run[a].table && key in run[b].table && key !in run[b].quiet
    requires forall i :: i in run[b].inserts && i !in run[a].inserts && run[b].inserts[i].key == key ==>
               run[b].inserts[i].Finished?
    ensures w in run[b].watchers && Signalled(run[b], w)
  {
    KeyComesFromInsert(run, a, b, key);
    var i :| i in run[b].inserts && i !in run[a].inserts && run[b].inserts[i].key == key;
    LaterInsertSees(run, a, b, i, w);
    NoLostWake(run, b, i, w);
  }

  /** The keys outside the promise: a batch put the key there, and nothing has touched it since. */
  lemma {:induction false} QuietIsFromBatch(run: seq<State>, b: nat, key: Bytes) returns (k: nat, keys: set<Bytes>)
    requires Run(run) && b < |run| && key in run[b].quiet
    ensures k < b && Step(run[k], Batch(keys), run[k + 1]) && key in keys && key !in run[k].table
    ensures forall m :: k < m <= b ==> key in run[m].quiet
    decreases b
  {
    var s, t := run[b - 1], run[b];
    assert Next(s, t);
    var e: Event :| Step(s, e, t);
    if key in s.quiet {
      k, keys := QuietIsFromBatch(run, b - 1, key);
    } else {
      k, keys := b - 1, e.keys;
    }
  }

  /** The promise is not made for batches. From every reachable state, whoever has registered, has not
      been signalled and misses a key is left waiting when a batch brings that key. */
  lemma BatchIsMissed(run: seq<State>, w: nat, key: Bytes, keys: set<Bytes>) returns (t: State)
    requires Run(run) && w in run[|run| - 1].watchers && !Signalled(run[|run| - 1], w)
    requires run[|run| - 1].watchers[w].prefix <= key && key !in run[|run| - 1].table && key in keys
    ensures Run(run + [t]) && key in t.table && key in t.quiet && t.inserts == run[|run| - 1].inserts
    ensures w in t.watchers && t.watchers[w] == run[|run| - 1].watchers[w] && !Signalled(t, w)
  {
    var s := run[|run| - 1];
    t := Apply(s, Batch(keys));
    assert Step(s, Batch(keys), t);
    var more := run + [t];
    forall k | 0 <= k < |more| - 1 ensures Next(more[k], more[k + 1]) {
      if k < |run| - 1 { assert Next(run[k], run[k + 1]); }
    }
  }
}
