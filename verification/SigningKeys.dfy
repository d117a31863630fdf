/** What is remembered of another server's signing keys, merged from the server itself and from
    servers trusted to vouch for it. */
module SigningKeys {
  import opened Wrappers

  type KeyId = string
  type Key = string
  type Time = nat

  /** A retired key and the time up to which it was valid. */
  datatype OldKey = OldKey(expired: Time, key: Key)

  datatype Keys = Keys(current: map<KeyId, Key>, retired: map<KeyId, OldKey>, validUntil: Time)

  function Ids(keys: Keys): set<KeyId> {
    keys.current.Keys + keys.retired.Keys
  }

  function Max(a: Time, b: Time): Time {
    if a < b then b else a
  }

  /** Keys the origin no longer lists, with the end of validity they were known under. */
  function Dropped(prev: Keys, given: Keys): map<KeyId, OldKey> {
    map id | id in prev.current && id !in given.current :: OldKey(prev.validUntil, prev.current[id])
  }

  function MergeTrusted(prev: Option<Keys>, given: Keys): Keys {
    match prev
    case None => given
    case Some(p) => Keys(p.current + given.current, p.retired + given.retired, Max(p.validUntil, given.validUntil))
  }

  function MergeOrigin(prev: Option<Keys>, given: Keys): Keys {
    match prev
    case None => given
    case Some(p) => Keys(given.current, p.retired + Dropped(p, given) + given.retired, given.validUntil)
  }

  // ---------- the store ----------

  type Server = string

  class KeyStore {
    var known: map<Server, Keys>

    constructor ()
      ensures known == map[]
    {
      known := map[];
    }

    function Lookup(origin: Server): Option<Keys>
      reads this
    {
      if origin in known then Some(known[origin]) else None
    }

    method AddFromTrusted(origin: Server, given: Keys) returns (r: Keys)
      modifies this
      ensures r == MergeTrusted(old(Lookup(origin)), given) && known == old(known)[origin := r]
    {
      if origin in known {
        r := known[origin];
        r := r.(current := r.current + given.current, retired := r.retired + given.retired);
        if given.validUntil > r.validUntil { r := r.(validUntil := given.validUntil); }
      } else {
        r := given;
      }
      known := known[origin := r];
    }

    /** Moves the keys that are no longer listed one by one. */
    method AddFromOrigin(origin: Server, given: Keys) returns (r: Keys)
      modifies this
      ensures r == MergeOrigin(old(Lookup(origin)), given) && known == old(known)[origin := r]
    {
      if origin in known {
        var retired := RetireDropped(known[origin], given);
        r := Keys(given.current, retired + given.retired, given.validUntil);
      } else {
        r := given;
      }
      known := known[origin := r];
    }
  }

  method RetireDropped(prev: Keys, given: Keys) returns (retired: map<KeyId, OldKey>)
    ensures retired == prev.retired + Dropped(prev, given)
  {
    retired := prev.retired;
    var left := prev.current.Keys;
    while left != {}
      invariant left <= prev.current.Keys
      invariant forall id :: id in retired <==> id in prev.retired || (id in Dropped(prev, given) && id !in left)
      invariant forall id :: id in retired ==>
        retired[id] == if id in Dropped(prev, given) && id !in left then Dropped(prev, given)[id] else prev.retired[id]
      decreases |left|
    {
      var id :| id in left;
      left := left - {id};
      if id !in given.current { retired := retired[id := OldKey(prev.validUntil, prev.current[id])]; }
    }
  }

  // ---------- what merging keeps ----------

  /** No key id is ever forgotten, and every given one is learnt. */
  lemma NothingForgotten(prev: Keys, given: Keys)
    ensures Ids(MergeTrusted(Some(prev), given)) == Ids(prev) + Ids(given)
    ensures Ids(MergeOrigin(Some(prev), given)) == Ids(prev) + Ids(given)
  {
  }

  /** After hearing from the origin, exactly its current keys are current, and a key it dropped is
      retired with the previous end of validity, unless the origin itself lists it as retired. */
  lemma OriginDecides(prev: Keys, given: Keys, id: KeyId)
    ensures MergeOrigin(Some(prev), given).current == given.current
    ensures MergeOrigin(Some(prev), given).validUntil == given.validUntil
    ensures id in prev.current && id !in given.current ==>
              && id in MergeOrigin(Some(prev), given).retired
              && MergeOrigin(Some(prev), given).retired[id] ==
                 if id in given.retired then given.retired[id] else OldKey(prev.validUntil, prev.current[id])
    ensures id in MergeOrigin(Some(prev), given).retired <==>
              id in prev.retired || id in given.retired || (id in prev.current && id !in given.current)
    ensures id in given.retired ==> MergeOrigin(Some(prev), given).retired[id] == given.retired[id]
    ensures id in prev.retired && id !in Ids(given) && id !in prev.current ==>
              MergeOrigin(Some(prev), given).retired[id] == prev.retired[id]
  {
  }

  /** A trusted server's entry replaces the one known before under its id, other entries stay, and the end of
      validity is the later one. What is first heard about a server is taken over whole. */
  lemma TrustedReplaces(prev: Keys, given: Keys, id: KeyId)
    ensures var r := MergeTrusted(Some(prev), given);
      && (id in r.current <==> id in prev.current || id in given.current)
      && (id in r.current ==> r.current[id] == if id in given.current then given.current[id] else prev.current[id])
      && (id in r.retired <==> id in prev.retired || id in given.retired)
      && (id in r.retired ==> r.retired[id] == if id in given.retired then given.retired[id] else prev.retired[id])
      && r.validUntil >= prev.validUntil && r.validUntil >= given.validUntil
      && (r.validUntil == prev.validUntil || r.validUntil == given.validUntil)
    ensures MergeTrusted(None, given) == given && MergeOrigin(None, given) == given
  {
  }

  // ---------- runs ----------

  datatype Message = Message(fromOrigin: bool, keys: Keys)

  function Merge(prev: Option<Keys>, m: Message): Keys {
    if m.fromOrigin then MergeOrigin(prev, m.keys) else MergeTrusted(prev, m.keys)
  }

  /** What is known after a sequence of messages about one server. */
  function After(ms: seq<Message>): Option<Keys> {
    if ms == [] then None else Some(Merge(After(ms[..|ms| - 1]), ms[|ms| - 1]))
  }

  /** An id is known exactly when some message so far has named it. */
  lemma {:induction false} KnownIffNamed(ms: seq<Message>, id: KeyId)
    requires ms != []
    ensures id in Ids(After(ms).value) <==> exists i :: 0 <= i < |ms| && id in Ids(ms[i].keys)
    decreases |ms|
  {
    var n := |ms| - 1;
    var shorter := ms[..n];
    assert forall i :: 0 <= i < n ==> shorter[i] == ms[i];
    if n > 0 {
      KnownIffNamed(shorter, id);
      NothingForgotten(After(shorter).value, ms[n].keys);
      if id in Ids(After(shorter).value) {
        var i :| 0 <= i < n && id in Ids(shorter[i].keys);
        assert id in Ids(ms[i].keys);
      }
      if exists i :: 0 <= i < |ms| && id in Ids(ms[i].keys) {
        var i :| 0 <= i < |ms| && id in Ids(ms[i].keys);
        if i < n { assert id in Ids(shorter[i].keys); }
      }
    }
  }

  /** Trusted servers only ever extend the validity that the origin last stated. */
  lemma {:induction false} ValidityIsKept(ms: seq<Message>, i: nat)
    requires 0 < i <= |ms| && forall j :: i <= j < |ms| ==> !ms[j].fromOrigin
    ensures After(ms[..i]).value.validUntil <= After(ms).value.validUntil
    ensures After(ms[..i]).value.current.Keys <= After(ms).value.current.Keys
    decreases |ms|
  {
    if i == |ms| {
      assert ms[..i] == ms;
    } else {
      var shorter := ms[..|ms| - 1];
      ValidityIsKept(shorter, i);
      assert shorter[..i] == ms[..i];
    }
  }

  /** A retired key stays retired, with its end of validity, until a message names it again. */
  lemma {:induction false} RetirementIsKept(ms: seq<Message>, i: nat, id: KeyId)
    requires 0 < i <= |ms| && id in After(ms[..i]).value.retired && id !in After(ms[..i]).value.current
    requires forall j :: i <= j < |ms| ==> id !in Ids(ms[j].keys)
    ensures id in After(ms).value.retired && id !in After(ms).value.current
    ensures After(ms).value.retired[id] == After(ms[..i]).value.retired[id]
    decreases |ms|
  {
    if i == |ms| {
      assert ms[..i] == ms;
    } else {
      var shorter := ms[..|ms| - 1];
      assert shorter[..i] == ms[..i];
      RetirementIsKept(shorter, i, id);
    }
  }
}
