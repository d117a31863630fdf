/** Access tokens of devices: one tree from device to token, one from token to device, and the
    metadata every device has. */
module Devices {
  import opened Bytes
  import opened KvTree
  import opened Wrappers

  datatype Device = Device(user: Text, id: Text)

  function DeviceKey(d: Device): Bytes {
    d.user + [SEP] + d.id
  }

  /** The two parts before the second separator; without a first separator there is no device. */
  function ParseDevice(b: Bytes): (r: Option<Device>) {
    var (user, rest) := SplitOnce(b);
    if rest.None? then None else Some(Device(user, SplitOnce(rest.value).0))
  }

  lemma {:induction false} SplitOnceText(t: Text)
    ensures SplitOnce(t) == (t, None)
  {
    if t != [] {
      SplitOnceText(t[1..]);
      assert t == [t[0]] + t[1..];
    }
  }

  lemma ParseDeviceKey(d: Device)
    ensures ParseDevice(DeviceKey(d)) == Some(d)
  {
    SplitOnceJoin(d.user, d.id);
    SplitOnceText(d.id);
  }

  // ---------- the operations on the trees ----------

  datatype Trees = Trees(tokens: Table, owners: Table, metadata: Table)

  function SetTokenIn(t: Trees, d: Device, token: Text): Trees {
    var prev := Lookup(t.tokens, DeviceKey(d));
    t.(owners := (if prev.Some? then t.owners - {prev.value} else t.owners)[token := DeviceKey(d)],
       tokens := t.tokens[DeviceKey(d) := token])
  }

  function CreateIn(t: Trees, d: Device, token: Text, meta: Bytes): Trees {
    SetTokenIn(t.(metadata := t.metadata[DeviceKey(d) := meta]), d, token)
  }

  function RemoveIn(t: Trees, d: Device): Trees {
    var prev := Lookup(t.tokens, DeviceKey(d));
    Trees(t.tokens - {DeviceKey(d)},
          if prev.Some? then t.owners - {prev.value} else t.owners,
          t.metadata - {DeviceKey(d)})
  }

  function FindFromToken(owners: Table, token: Text): Option<Device> {
    if token in owners then ParseDevice(owners[token]) else None
  }

  /** The two token trees are inverse to each other and only name devices with metadata. */
  ghost predicate Inverse(t: Trees) {
    && (forall k :: k in t.tokens ==> t.tokens[k] in t.owners && t.owners[t.tokens[k]] == k)
    && (forall o :: o in t.owners ==> t.owners[o] in t.tokens && t.tokens[t.owners[o]] == o)
    && (forall k :: k in t.tokens ==> k in t.metadata)
  }

  /** Giving a device a token keeps the trees inverse exactly when no other device holds it. */
  lemma SetTokenKeeps(t: Trees, d: Device, token: Text)
    requires Inverse(t) && DeviceKey(d) in t.metadata
    ensures Inverse(SetTokenIn(t, d, token)) <==> token in t.owners ==> t.owners[token] == DeviceKey(d)
  {
    var t' := SetTokenIn(t, d, token);
    if token in t.owners && t.owners[token] != DeviceKey(d) {
      assert t'.tokens[t.owners[token]] == token && t'.owners[token] == DeviceKey(d);
    }
  }

  lemma RemoveKeeps(t: Trees, d: Device)
    requires Inverse(t)
    ensures Inverse(RemoveIn(t, d))
  {
  }

  // ---------- whole runs ----------

  datatype Op =
    | Create(d: Device, token: Text, meta: Bytes)
    | Relogin(d: Device, token: Text)
    | Remove(d: Device)

  /** `issued` remembers for whom each token was made. */
  datatype State = State(trees: Trees, issued: map<Text, Device>)

  const Start := State(Trees(map[], map[], map[]), map[])

  predicate Allowed(s: State, op: Op) {
    match op
    case Create(_, token, _) => token !in s.issued
    case Relogin(d, token) => token !in s.issued && DeviceKey(d) in s.trees.metadata
    case Remove(_) => true
  }

  function Apply(s: State, op: Op): State {
    match op
    case Create(d, token, meta) => State(CreateIn(s.trees, d, token, meta), s.issued[token := d])
    case Relogin(d, token) => State(SetTokenIn(s.trees, d, token), s.issued[token := d])
    case Remove(d) => s.(trees := RemoveIn(s.trees, d))
  }

  ghost predicate Step(s: State, op: Op, t: State) {
    Allowed(s, op) && t == Apply(s, op)
  }

  ghost predicate Next(s: State, t: State) {
    exists op: Op :: Step(s, op, t)
  }

  ghost predicate Run(run: seq<State>) {
    |run| > 0 && run[0] == Start && forall k :: 0 <= k < |run| - 1 ==> Next(run[k], run[k + 1])
  }

  /** A token that resolves, resolves to the device it was made for. */
  ghost predicate Inv(s: State) {
    && Inverse(s.trees)
    && (forall o :: o in s.trees.owners ==> o in s.issued && s.trees.owners[o] == DeviceKey(s.issued[o]))
  }

  lemma SetTokenInv(s: State, d: Device, token: Text)
    requires Inv(s) && Allowed(s, Relogin(d, token))
    ensures Inv(Apply(s, Relogin(d, token)))
  {
    SetTokenKeeps(s.trees, d, token);
  }

  lemma StepKeeps(s: State, op: Op)
    requires Inv(s) && Allowed(s, op)
    ensures Inv(Apply(s, op))
  {
    match op
    case Create(d, token, meta) =>
      var s' := s.(trees := s.trees.(metadata := s.trees.metadata[DeviceKey(d) := meta]));
      SetTokenInv(s', d, token);
    case Relogin(d, token) => SetTokenInv(s, d, token);
    case Remove(d) => RemoveKeeps(s.trees, d);
  }

  lemma {:induction false} RunInv(run: seq<State>, k: nat)
    requires Run(run) && k < |run|
    ensures Inv(run[k])
  {
    if k > 0 {
      RunInv(run, k - 1);
      assert Next(run[k - 1], run[k]);
      var op: Op :| Step(run[k - 1], op, run[k]);
      StepKeeps(run[k - 1], op);
    }
  }

  /** After every run, a token either resolves to exactly the device it was issued for, which then
      has metadata and this very token, or to nothing. */
  lemma TokenResolves(run: seq<State>, k: nat, token: Text)
    requires Run(run) && k < |run| && FindFromToken(run[k].trees.owners, token).Some?
    ensures token in run[k].issued
    ensures var d := run[k].issued[token]; var t := run[k].trees;
      && FindFromToken(t.owners, token) == Some(d)
      && DeviceKey(d) in t.metadata && Lookup(t.tokens, DeviceKey(d)) == Some(token)
  {
    RunInv(run, k);
    ParseDeviceKey(run[k].issued[token]);
  }

  /** The current token of a device always resolves to that device. */
  lemma CurrentTokenResolves(run: seq<State>, k: nat, d: Device)
    requires Run(run) && k < |run| && DeviceKey(d) in run[k].trees.tokens
    ensures var token := run[k].trees.tokens[DeviceKey(d)];
      token in run[k].trees.owners && ParseDevice(run[k].trees.owners[token]) == Some(d)
  {
    RunInv(run, k);
    ParseDeviceKey(d);
  }

  lemma DeadAfterStep(s: State, op: Op, token: Text)
    requires Allowed(s, op) && token in s.issued && token !in s.trees.owners
    ensures token in Apply(s, op).issued && token !in Apply(s, op).trees.owners
  {
  }

  /** A token that was issued and no longer resolves, because it was replaced or its device was
      removed, never resolves again. */
  lemma {:induction false} DeadTokensStayDead(run: seq<State>, a: nat, b: nat, token: Text)
    requires Run(run) && a <= b < |run|
    requires token in run[a].issued && token !in run[a].trees.owners
    ensures token in run[b].issued && token !in run[b].trees.owners
    decreases b
  {
    if a < b {
      DeadTokensStayDead(run, a, b - 1, token);
      assert Next(run[b - 1], run[b]);
      var op: Op :| Step(run[b - 1], op, run[b]);
      DeadAfterStep(run[b - 1], op, token);
    }
  }

  /** Replacing or removing kills the previous token at once. */
  lemma OldTokenDies(s: State, op: Op, d: Device)
    requires Inv(s) && Allowed(s, op) && DeviceKey(d) in s.trees.tokens && op.d == d
    ensures s.trees.tokens[DeviceKey(d)] !in Apply(s, op).trees.owners
  {
    var before := s.trees.tokens[DeviceKey(d)];
    assert before in s.trees.owners && before in s.issued;
  }

  // ---------- the store ----------

  /** The version of the user's device list has gone up by one. */
  function Bumped(t: Table, user: Text): Table
    requires Lookup(t, user).Some? ==> U64FromBytes(t[user]) != Some(U64_MAX)
  {
    t[user := IncrementValue(Lookup(t, user))]
  }

  /** The version stored for the user. */
  function Version(t: Table, user: Text): Option<U64> {
    if user in t then U64FromBytes(t[user]) else None
  }

  lemma BumpedIs(t: Table, user: Text)
    requires Lookup(t, user).Some? ==> U64FromBytes(t[user]) != Some(U64_MAX)
    ensures Version(Bumped(t, user), user) == Some(if Version(t, user).Some? then Version(t, user).value + 1 else 1)
    ensures forall other :: other != user ==> Lookup(Bumped(t, user), other) == Lookup(t, other)
  {
    U64RoundTrip(if Version(t, user).Some? then Version(t, user).value + 1 else 1);
  }

  class Devices {
    const userdeviceid_token: KvTree
    const token_userdeviceid: KvTree
    const userdeviceid_metadata: KvTree
    const userid_password: KvTree
    const todeviceid_events: KvTree
    const userid_devicelistversion: KvTree
    const readable: (Text, Text) -> bool  // whether stored bytes are a user id and a device id

    ghost predicate Distinct() {
      && userdeviceid_token != token_userdeviceid && userdeviceid_token != userdeviceid_metadata
      && token_userdeviceid != userdeviceid_metadata
      && {todeviceid_events, userid_devicelistversion, userid_password}
         !! {userdeviceid_token, token_userdeviceid, userdeviceid_metadata}
      && todeviceid_events != userid_devicelistversion && userid_password != todeviceid_events
      && userid_password != userid_devicelistversion
    }

    ghost function Contents(): Trees
      reads userdeviceid_token, token_userdeviceid, userdeviceid_metadata
    {
      Trees(userdeviceid_token.table, token_userdeviceid.table, userdeviceid_metadata.table)
    }

    ghost predicate Countable(user: Text)
      reads userid_devicelistversion
    {
      user in userid_devicelistversion.table ==> U64FromBytes(userid_devicelistversion.table[user]) != Some(U64_MAX)
    }

    constructor (tokens: KvTree, owners: KvTree, metadata: KvTree, passwords: KvTree, events: KvTree, versions: KvTree,
                 readable: (Text, Text) -> bool)
      requires tokens != owners && tokens != metadata && owners != metadata
      requires {events, versions, passwords} !! {tokens, owners, metadata}
      requires events != versions && passwords != events && passwords != versions
      ensures Distinct()
      ensures userdeviceid_token == tokens && token_userdeviceid == owners && userdeviceid_metadata == metadata
      ensures userid_password == passwords && todeviceid_events == events && userid_devicelistversion == versions
      ensures this.readable == readable
    {
      userdeviceid_token, token_userdeviceid, userdeviceid_metadata := tokens, owners, metadata;
      userid_password, todeviceid_events, userid_devicelistversion := passwords, events, versions;
      this.readable := readable;
    }

    /** The entry names a user and a device. */
    predicate Readable(entry: Bytes) {
      var d := ParseDevice(entry);
      d.Some? && readable(d.value.user, d.value.id)
    }

    method SetToken(user: Text, device: Text, token: Text)
      requires Distinct() && DeviceKey(Device(user, device)) in userdeviceid_metadata.table
      modifies userdeviceid_token, token_userdeviceid
      ensures Contents() == SetTokenIn(old(Contents()), Device(user, device), token)
      ensures Lookup(userdeviceid_token.table, DeviceKey(Device(user, device))) == Some(token)
      ensures FindFromToken(token_userdeviceid.table, token) == Some(Device(user, device))
      ensures var prev := Lookup(old(userdeviceid_token.table), DeviceKey(Device(user, device)));
        prev.Some? && prev.value != token ==> prev.value !in token_userdeviceid.table
      ensures forall k :: k != DeviceKey(Device(user, device)) ==>
                Lookup(userdeviceid_token.table, k) == Lookup(old(userdeviceid_token.table), k)
      ensures var prev := Lookup(old(userdeviceid_token.table), DeviceKey(Device(user, device)));
        forall o :: o != token && Some(o) != prev ==>
          Lookup(token_userdeviceid.table, o) == Lookup(old(token_userdeviceid.table), o)
    {
      ParseDeviceKey(Device(user, device));
      var userdeviceid := user + [SEP] + device;
      var oldToken := userdeviceid_token.Get(userdeviceid);
      if oldToken.Some? {
        token_userdeviceid.Remove(oldToken.value);
      }
      userdeviceid_token.Insert(userdeviceid, token);
      token_userdeviceid.Insert(token, userdeviceid);
    }

    /** Only called for users that exist. */
    method CreateDevice(user: Text, device: Text, token: Text, meta: Bytes)
      requires Distinct() && user in userid_password.table && Countable(user)
      modifies userdeviceid_token, token_userdeviceid, userdeviceid_metadata, userid_devicelistversion
      ensures Contents() == CreateIn(old(Contents()), Device(user, device), token, meta)
      ensures userid_devicelistversion.table == Bumped(old(userid_devicelistversion.table), user)
      ensures Lookup(userdeviceid_metadata.table, DeviceKey(Device(user, device))) == Some(meta)
      ensures var prev := Lookup(old(userdeviceid_token.table), DeviceKey(Device(user, device)));
        forall o :: o != token && Some(o) != prev ==>
          Lookup(token_userdeviceid.table, o) == Lookup(old(token_userdeviceid.table), o)
      ensures Lookup(userdeviceid_token.table, DeviceKey(Device(user, device))) == Some(token)
      ensures FindFromToken(token_userdeviceid.table, token) == Some(Device(user, device))
      ensures forall k :: k != DeviceKey(Device(user, device)) ==>
                && Lookup(userdeviceid_token.table, k) == Lookup(old(userdeviceid_token.table), k)
                && Lookup(userdeviceid_metadata.table, k) == Lookup(old(userdeviceid_metadata.table), k)
      ensures var before := Version(old(userid_devicelistversion.table), user);
        Version(userid_devicelistversion.table, user) == Some(if before.Some? then before.value + 1 else 1)
    {
      BumpedIs(userid_devicelistversion.table, user);
      var _ := userid_devicelistversion.Increment(user);
      userdeviceid_metadata.Insert(user + [SEP] + device, meta);
      SetToken(user, device, token);
    }

    /** Also drops everything still queued for the device. */
    method RemoveDevice(user: Text, device: Text)
      requires Distinct() && Countable(user)
      modifies userdeviceid_token, token_userdeviceid, userdeviceid_metadata
      modifies todeviceid_events, userid_devicelistversion
      ensures Contents() == RemoveIn(old(Contents()), Device(user, device))
      ensures todeviceid_events.table
              == old(todeviceid_events.table) - set k | k in old(todeviceid_events.table) && Pair(user, device) <= k
      ensures userid_devicelistversion.table == Bumped(old(userid_devicelistversion.table), user)
      ensures DeviceKey(Device(user, device)) !in userdeviceid_metadata.table
      ensures DeviceKey(Device(user, device)) !in userdeviceid_token.table
      ensures var prev := Lookup(old(userdeviceid_token.table), DeviceKey(Device(user, device)));
        prev.Some? ==> prev.value !in token_userdeviceid.table
      ensures var prev := Lookup(old(userdeviceid_token.table), DeviceKey(Device(user, device)));
        forall o :: Some(o) != prev ==> Lookup(token_userdeviceid.table, o) == Lookup(old(token_userdeviceid.table), o)
      ensures forall k :: k != DeviceKey(Device(user, device)) ==>
                && Lookup(userdeviceid_token.table, k) == Lookup(old(userdeviceid_token.table), k)
                && Lookup(userdeviceid_metadata.table, k) == Lookup(old(userdeviceid_metadata.table), k)
      ensures var before := Version(old(userid_devicelistversion.table), user);
        Version(userid_devicelistversion.table, user) == Some(if before.Some? then before.value + 1 else 1)
    {
      hide Version, U64FromBytes;
      BumpedIs(userid_devicelistversion.table, user);
      var userdeviceid := user + [SEP] + device;
      DropToken(userdeviceid);
      DropQueue(userdeviceid + [SEP]);
      var _ := userid_devicelistversion.Increment(user);
      userdeviceid_metadata.Remove(userdeviceid);
    }

    method DropToken(userdeviceid: Bytes)
      requires userdeviceid_token != token_userdeviceid
      modifies userdeviceid_token, token_userdeviceid
      ensures userdeviceid_token.table == old(userdeviceid_token.table) - {userdeviceid}
      ensures var prev := Lookup(old(userdeviceid_token.table), userdeviceid);
        token_userdeviceid.table == old(token_userdeviceid.table) - if prev.Some? then {prev.value} else {}
    {
      var oldToken := userdeviceid_token.Get(userdeviceid);
      if oldToken.Some? {
        userdeviceid_token.Remove(userdeviceid);
        token_userdeviceid.Remove(oldToken.value);
      }
    }

    method DropQueue(prefix: Bytes)
      modifies todeviceid_events
      ensures todeviceid_events.table
              == old(todeviceid_events.table) - set k | k in old(todeviceid_events.table) && prefix <= k
    {
      ghost var t := todeviceid_events.table;
      var rows := todeviceid_events.ScanPrefix(prefix);
      for i := 0 to |rows|
        invariant todeviceid_events.table == RemoveAll(t, rows[..i])
      {
        assert rows[..i + 1][..i] == rows[..i];
        todeviceid_events.Remove(rows[i].key);
      }
      assert rows[..|rows|] == rows;
      RemoveAllIs(t, t, PrefixKeys(t, prefix));
      assert (set k | k in PrefixKeys(t, prefix)) == set k | k in t && prefix <= k;
    }

    /** Fails only on an entry without a separator or with unreadable parts, which no operation writes. */
    method Find(token: Text) returns (r: Result<Option<Device>, string>)
      ensures r.Err? <==> token in token_userdeviceid.table && !Readable(token_userdeviceid.table[token])
      ensures r.Ok? ==> r.value == FindFromToken(token_userdeviceid.table, token)
    {
      var bytes := token_userdeviceid.Get(token);
      if bytes.None? {
        return Ok(None);
      }
      var (user, rest) := SplitOnce(bytes.value);
      if rest.None? {
        return Err("Device ID in token_userdeviceid is invalid.");
      }
      var device := SplitOnce(rest.value).0;
      if !readable(user, device) {
        return Err("User ID in token_userdeviceid is invalid.");
      }
      return Ok(Some(Device(user, device)));
    }
  }
}
