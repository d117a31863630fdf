/** Login challenges: a nonce is issued, consumed by the first login that names it, expires after
    300 seconds, and is pruned when too many are stored. */
module Nonces {
  import opened Wrappers
  import Base58

  type Nonce = string
  type Bytes = seq<Base58.Byte>
  type Store = map<Nonce, real>

  /** Seconds. */
  const NONCE_TTL := 300.0
  const MAX_NONCES := 10_000

  /** Expired nonces are dropped once the store has grown beyond its bound. */
  function Prune(store: Store, now: real): Store {
    if |store| > MAX_NONCES then map n | n in store && now - store[n] < NONCE_TTL :: store[n] else store
  }

  /** The clock is read once to prune and again to stamp the new nonce. */
  function Issue(store: Store, nonce: Nonce, pruned: real, now: real): Store {
    Prune(store, pruned)[nonce := now]
  }

  lemma FewerKeys(small: Store, large: Store)
    requires forall n :: n in small ==> n in large
    ensures |small| <= |large|
  {
    SubsetSize(small.Keys, large.Keys);
  }

  /** An issue into a store of at most 10,000 nonces drops none of them; into a larger one it drops exactly those
      issued 300 seconds ago or earlier. */
  lemma IssueKeeps(store: Store, nonce: Nonce, pruned: real, now: real, n: Nonce)
    requires n != nonce
    ensures n in Issue(store, nonce, pruned, now) <==> n in store && (|store| <= 10_000 || pruned - store[n] < 300.0)
    ensures n in Issue(store, nonce, pruned, now) ==> Issue(store, nonce, pruned, now)[n] == store[n]
    ensures nonce in Issue(store, nonce, pruned, now) && Issue(store, nonce, pruned, now)[nonce] == now
  {
  }

  /** A store that an issue leaves above the bound holds only nonces that were unexpired when it was
      pruned. */
  lemma LargeStoreIsYoung(store: Store, nonce: Nonce, pruned: real, now: real, n: Nonce)
    requires pruned <= now && |Issue(store, nonce, pruned, now)| > MAX_NONCES + 1
    requires n in Issue(store, nonce, pruned, now)
    ensures n == nonce || pruned - store[n] < NONCE_TTL
  {
    var kept := Prune(store, pruned);
    var issued := Issue(store, nonce, pruned, now);
    assert issued.Keys == kept.Keys + {nonce};
    assert |kept.Keys| >= |issued.Keys| - 1;
    FewerKeys(kept, store);
  }

  // ---------- the two requests ----------

  datatype NonceError = InvalidBase58 | NotThirtyTwoBytes

  datatype LoginError =
    | BadAddress | BadAddressLength | BadKey | BadSignature | BadSignatureLength
    | NonceNotFound | NonceExpired | NotVerified

  /** What ed25519 says about keys and signatures. */
  datatype Crypto = Crypto(isKey: Bytes -> bool, verifies: (Bytes, string, Bytes) -> bool)

  datatype Login = Login(address: string, signature: string, nonce: Nonce)

  const REASSURANCE: string :=
    "\n\nThis signature " + "will not trigger " + "a blockchain " + "transaction or " + "cost any fees."

  function SignMessage(server: string, nonce: Nonce): string {
    "Sign in to " + server + "\n\nNonce: " + nonce + REASSURANCE
  }

  /** Different nonces of one server are never asked for with the same message. */
  lemma SignMessageInjective(server: string, a: Nonce, b: Nonce)
    requires SignMessage(server, a) == SignMessage(server, b)
    ensures a == b
  {
    var n := |"Sign in to " + server + "\n\nNonce: "|;
    var x, y := SignMessage(server, a), SignMessage(server, b);
    assert x[n..n + |a|] == a && y[n..n + |b|] == b;
  }

  /** The parts of a request that are looked at before the nonce is consumed. */
  function Wellformed(login: Login, crypto: Crypto): Result<(Bytes, Bytes), LoginError> {
    match Base58.StrictDecode(login.address)
    case None => Err(BadAddress)
    case Some(key) =>
      if |key| != 32 then Err(BadAddressLength)
      else if !crypto.isKey(key) then Err(BadKey)
      else match Base58.StrictDecode(login.signature)
        case None => Err(BadSignature)
        case Some(sig) => if |sig| != 64 then Err(BadSignatureLength) else Ok((key, sig))
  }

  /** A request is well-formed when its address is the encoding of a 32-byte key that ed25519 accepts and its
      signature that of 64 bytes. */
  lemma WellformedIff(login: Login, crypto: Crypto, key: Bytes, sig: Bytes)
    ensures Wellformed(login, crypto) == Ok((key, sig)) <==>
            && login.address == Base58.Encode(key) && |key| == 32 && crypto.isKey(key)
            && login.signature == Base58.Encode(sig) && |sig| == 64
  {
    Base58.StrictDecodeEncode(key);
    Base58.StrictDecodeEncode(sig);
    if Base58.StrictDecode(login.address).Some? { Base58.EncodeStrictDecode(login.address); }
    if Base58.StrictDecode(login.signature).Some? { Base58.EncodeStrictDecode(login.signature); }
  }

  /** The first part that is wrong decides the refusal. */
  lemma RefusedFor(login: Login, crypto: Crypto)
    ensures var key, sig := Base58.StrictDecode(login.address), Base58.StrictDecode(login.signature);
      var valid := key.Some? && |key.value| == 32 && crypto.isKey(key.value);
      && (Wellformed(login, crypto) == Err(BadAddress) <==> key.None?)
      && (Wellformed(login, crypto) == Err(BadAddressLength) <==> key.Some? && |key.value| != 32)
      && (Wellformed(login, crypto) == Err(BadKey) <==> key.Some? && |key.value| == 32 && !crypto.isKey(key.value))
      && (Wellformed(login, crypto) == Err(BadSignature) <==> valid && sig.None?)
      && (Wellformed(login, crypto) == Err(BadSignatureLength) <==> valid && sig.Some? && |sig.value| != 64)
  {
  }

  class NonceStore {
    const server: string
    var nonces: Store

    constructor (server: string)
      ensures this.server == server && nonces == map[]
    {
      this.server := server;
      nonces := map[];
    }

    method Generate(address: string, nonce: Nonce, pruned: real, now: real) returns (r: Result<string, NonceError>)
      modifies this
      ensures r.Ok? <==> Base58.ServerLocalpart(address).Some?
      ensures r.Ok? ==> r.value == SignMessage(server, nonce) && nonces == Issue(old(nonces), nonce, pruned, now)
      ensures r.Ok? ==>
                r.value ==
                "Sign in to " + server + "\n\nNonce: " + nonce
                + ("\n\nThis signature " + "will not trigger " + "a blockchain " + "transaction or " + "cost any fees.")
      ensures r.Err? ==> nonces == old(nonces)
      ensures r == Err(InvalidBase58) <==> Base58.StrictDecode(address).None?
    {
      var key := Base58.StrictDecode(address);
      if key.None? { return Err(InvalidBase58); }
      if |key.value| != 32 { return Err(NotThirtyTwoBytes); }
      if |nonces| > MAX_NONCES {
        nonces := map n | n in nonces && pruned - nonces[n] < NONCE_TTL :: nonces[n];
      }
      nonces := nonces[nonce := now];
      return Ok(SignMessage(server, nonce));
    }

    /** A well-formed request uses its nonce up, whatever becomes of it; no other request does. */
    method VerifyLogin(login: Login, crypto: Crypto, now: real) returns (r: Result<(string, string), LoginError>)
      modifies this
      ensures nonces == if Wellformed(login, crypto).Ok? then old(nonces) - {login.nonce} else old(nonces)
      ensures match Wellformed(login, crypto)
              case Err(e) => r == Err(e)
              case Ok((key, sig)) =>
                && (r == Err(NonceNotFound) <==> login.nonce !in old(nonces))
                && (r == Err(NonceExpired) <==>
                    login.nonce in old(nonces) && now - old(nonces)[login.nonce] > NONCE_TTL)
                && (r.Ok? <==> login.nonce in old(nonces) && now - old(nonces)[login.nonce] <= NONCE_TTL
                               && crypto.verifies(key, SignMessage(server, login.nonce), sig))
      ensures r.Ok? ==> Base58.ServerLocalpart(login.address) == Some(r.value.0) && r.value.1 == login.address
    {
      var parts := Wellformed(login, crypto);
      if parts.Err? { return Err(parts.error); }
      if login.nonce !in nonces { nonces := nonces - {login.nonce}; return Err(NonceNotFound); }
      var created := nonces[login.nonce];
      nonces := nonces - {login.nonce};
      if now - created > NONCE_TTL { return Err(NonceExpired); }
      var (key, sig) := parts.value;
      if !crypto.verifies(key, SignMessage(server, login.nonce), sig) { return Err(NotVerified); }
      return Ok((Base58.ServerLocalpart(login.address).value, login.address));
    }
  }

  // ---------- runs over a monotone clock ----------

  datatype Entry = Issued(nonce: Nonce, at: real) | Consumed(nonce: Nonce, at: real, accepted: bool)

  /** `log` is the history of issues and consumptions. */
  datatype State = State(now: real, store: Store, log: seq<Entry>)

  /** Each step may take time. An attempt is a login with a well-formed request. */
  datatype Event =
    | Wait(d: real)
    | Generate(nonce: Nonce, d: real)
    | Attempt(nonce: Nonce, d: real, verified: bool)

  function Apply(s: State, e: Event): State {
    var now := s.now + e.d;
    match e
    case Wait(_) => s.(now := now)
    case Generate(n, _) => State(now, Issue(s.store, n, s.now, now), s.log + [Issued(n, now)])
    case Attempt(n, _, verified) =>
      if n !in s.store then s.(now := now)
      else State(now, s.store - {n}, s.log + [Consumed(n, now, now - s.store[n] <= NONCE_TTL && verified)])
  }

  /** What an attempt does to the store and when it is accepted is what `VerifyLogin` does with a well-formed
      request. */
  lemma AttemptIsLogin(s: State, n: Nonce, d: real, verified: bool)
    ensures var t := Apply(s, Attempt(n, d, verified));
      && t.store == s.store - {n} && t.now == s.now + d
      && (t.log == s.log + [Consumed(n, t.now, true)] <==>
          n in s.store && t.now - s.store[n] <= 300.0 && verified)
  {
    var t := Apply(s, Attempt(n, d, verified));
    assert (s.log + [Consumed(n, t.now, true)])[|s.log|].accepted;
  }

  ghost predicate Step(s: State, e: Event, t: State) {
    e.d >= 0.0 && t == Apply(s, e)
  }

  ghost predicate Next(s: State, t: State) {
    exists e: Event :: Step(s, e, t)
  }

  ghost predicate Run(run: seq<State>) {
    run != [] && run[0].store == map[] && run[0].log == [] && forall i :: 0 < i < |run| ==> Next(run[i - 1], run[i])
  }

  function Issues(log: seq<Entry>, n: Nonce): nat {
    if log == [] then 0
    else Issues(log[..|log| - 1], n) + if log[|log| - 1].Issued? && log[|log| - 1].nonce == n then 1 else 0
  }

  function Acceptances(log: seq<Entry>, n: Nonce): nat {
    if log == [] then 0
    else Acceptances(log[..|log| - 1], n)
         + if log[|log| - 1].Consumed? && log[|log| - 1].accepted && log[|log| - 1].nonce == n then 1 else 0
  }

  /** Position `i` is the last that concerns the nonce. */
  ghost predicate IsLast(log: seq<Entry>, n: Nonce, i: int) {
    0 <= i < |log| && log[i].nonce == n && forall k :: i < k < |log| ==> log[k].nonce != n
  }

  /** Stored means: issued, and nothing has happened to it since. */
  ghost predicate StoredInv(s: State, n: Nonce) {
    n in s.store ==> exists i :: IsLast(s.log, n, i) && s.log[i] == Issued(n, s.store[n])
  }

  /** What was issued less than 300 seconds ago and not touched since is stored. */
  ghost predicate YoungInv(s: State, i: int)
    requires 0 <= i < |s.log|
  {
    IsLast(s.log, s.log[i].nonce, i) && s.log[i].Issued? && s.now - s.log[i].at < NONCE_TTL ==>
      s.log[i].nonce in s.store && s.store[s.log[i].nonce] == s.log[i].at
  }

  /** An acceptance follows an issue at most 300 seconds earlier, with nothing in between. */
  ghost predicate Backed(log: seq<Entry>, i: int, j: int)
    requires 0 <= i < |log|
  {
    && 0 <= j < i && log[j].Issued? && log[j].nonce == log[i].nonce
    && log[i].at - log[j].at <= NONCE_TTL
    && forall k :: j < k < i ==> log[k].nonce != log[i].nonce
  }

  ghost predicate BackedInv(log: seq<Entry>, i: int)
    requires 0 <= i < |log|
  {
    log[i].Consumed? && log[i].accepted ==> exists j :: Backed(log, i, j)
  }

  ghost predicate CountInv(s: State, n: Nonce) {
    Acceptances(s.log, n) + (if n in s.store then 1 else 0) <= Issues(s.log, n)
  }

  ghost predicate TimeInv(s: State) {
    && (forall i :: 0 <= i < |s.log| ==> s.log[i].at <= s.now)
    && (forall i, j :: 0 <= i < j < |s.log| ==> s.log[i].at <= s.log[j].at)
  }

  ghost predicate Inv(s: State) {
    && TimeInv(s)
    && (forall n :: StoredInv(s, n) && CountInv(s, n))
    && (forall i :: 0 <= i < |s.log| ==> YoungInv(s, i) && BackedInv(s.log, i))
  }

  lemma StoredKeeps(s: State, e: Event, t: State, n: Nonce)
    requires Inv(s) && Step(s, e, t)
    ensures StoredInv(t, n)
  {
    if n in t.store {
      if e.Generate? && e.nonce == n {
        assert IsLast(t.log, n, |s.log|);
      } else {
        assert StoredInv(s, n);
        var i :| IsLast(s.log, n, i) && s.log[i] == Issued(n, s.store[n]);
        assert IsLast(t.log, n, i);
      }
    }
  }

  lemma CountKeeps(s: State, e: Event, t: State, n: Nonce)
    requires Inv(s) && Step(s, e, t)
    ensures CountInv(t, n)
  {
    assert CountInv(s, n);
    if t.log != s.log { assert t.log[..|t.log| - 1] == s.log; }
  }

  lemma YoungKeeps(s: State, e: Event, t: State, i: int)
    requires Inv(s) && Step(s, e, t) && 0 <= i < |t.log|
    ensures YoungInv(t, i)
  {
    if i < |s.log| {
      assert YoungInv(s, i);
      var n := s.log[i].nonce;
      if IsLast(t.log, n, i) {
        assert forall k :: 0 <= k < |s.log| ==> s.log[k] == t.log[k];
        assert t.log != s.log ==> t.log[|s.log|].nonce != n;
        assert IsLast(s.log, n, i);
      }
    }
  }

  lemma BackedKeeps(s: State, e: Event, t: State, i: int)
    requires Inv(s) && Step(s, e, t) && 0 <= i < |t.log|
    ensures BackedInv(t.log, i)
  {
    if i < |s.log| {
      assert BackedInv(s.log, i);
      if s.log[i].Consumed? && s.log[i].accepted {
        var j :| Backed(s.log, i, j);
        assert Backed(t.log, i, j);
      }
    } else if t.log[i].Consumed? && t.log[i].accepted {
      assert StoredInv(s, e.nonce);
      var j :| IsLast(s.log, e.nonce, j) && s.log[j] == Issued(e.nonce, s.store[e.nonce]);
      assert Backed(t.log, i, j);
    }
  }

  lemma StepKeeps(s: State, e: Event, t: State)
    requires Inv(s) && Step(s, e, t)
    ensures Inv(t)
  {
    forall n ensures StoredInv(t, n) && CountInv(t, n) {
      StoredKeeps(s, e, t, n);
      CountKeeps(s, e, t, n);
    }
    forall i | 0 <= i < |t.log| ensures YoungInv(t, i) && BackedInv(t.log, i) {
      YoungKeeps(s, e, t, i);
      BackedKeeps(s, e, t, i);
    }
  }

  lemma {:induction false} RunInv(run: seq<State>, k: nat)
    requires Run(run) && k < |run|
    ensures Inv(run[k])
  {
    if k > 0 {
      RunInv(run, k - 1);
      assert Next(run[k - 1], run[k]);
      var e: Event :| Step(run[k - 1], e, run[k]);
      StepKeeps(run[k - 1], e, run[k]);
    }
  }

  /** A nonce is never accepted more often than it was issued. */
  lemma AcceptedAtMostOncePerIssue(run: seq<State>, k: nat, n: Nonce)
    requires Run(run) && k < |run|
    ensures Acceptances(run[k].log, n) <= Issues(run[k].log, n)
  {
    RunInv(run, k);
    assert CountInv(run[k], n);
  }

  /** Every acceptance follows an issue at most 300 seconds earlier, with no consumption of the
      nonce in between. */
  lemma AcceptanceIsBacked(run: seq<State>, k: nat, i: nat) returns (j: nat)
    requires Run(run) && k < |run| && i < |run[k].log| && run[k].log[i].Consumed? && run[k].log[i].accepted
    ensures Backed(run[k].log, i, j)
  {
    RunInv(run, k);
    assert BackedInv(run[k].log, i);
    var x :| Backed(run[k].log, i, x);
    j := x;
  }

  lemma {:induction false} LastAfter(log: seq<Entry>, n: Nonce, j: nat) returns (i: nat)
    requires j < |log| && log[j].nonce == n
    ensures j <= i && IsLast(log, n, i)
    decreases |log| - j
  {
    if k :| j < k < |log| && log[k].nonce == n {
      i := LastAfter(log, n, k);
    } else {
      i := j;
    }
  }

  /** A nonce issued less than 300 seconds ago and not consumed since is still stored. */
  lemma UnconsumedStaysStored(run: seq<State>, k: nat, j: nat)
    requires Run(run) && k < |run| && j < |run[k].log| && run[k].log[j].Issued?
    requires run[k].now - run[k].log[j].at < NONCE_TTL
    requires forall i :: j < i < |run[k].log| && run[k].log[i].nonce == run[k].log[j].nonce ==> run[k].log[i].Issued?
    ensures run[k].log[j].nonce in run[k].store
  {
    RunInv(run, k);
    var i := LastAfter(run[k].log, run[k].log[j].nonce, j);
    assert YoungInv(run[k], i);
    assert i == j || run[k].log[j].at <= run[k].log[i].at;
  }

  /** An attempt with a good signature succeeds within 300 seconds of the nonce's last issue and
      fails afterwards, or when the nonce was consumed since. At exactly 300 seconds it depends on whether
      the nonce has been pruned. */
  lemma AttemptDecided(run: seq<State>, k: nat, n: Nonce, d: real, i: nat)
    requires Run(run) && k < |run| && d >= 0.0 && IsLast(run[k].log, n, i)
    ensures var t := Apply(run[k], Attempt(n, d, true));
            var accepted := t.log == run[k].log + [Consumed(n, t.now, true)];
            && (run[k].log[i].Issued? && t.now - run[k].log[i].at < NONCE_TTL ==> accepted)
            && (run[k].log[i].Consumed? || t.now - run[k].log[i].at > NONCE_TTL ==> !accepted)
            && (t.now - run[k].log[i].at == NONCE_TTL ==> (accepted <==> n in run[k].store))
  {
    RunInv(run, k);
    assert YoungInv(run[k], i) && StoredInv(run[k], n);
    var s, t := run[k], Apply(run[k], Attempt(n, d, true));
    if n in s.store {
      var j :| IsLast(s.log, n, j) && s.log[j] == Issued(n, s.store[n]);
      assert i == j;
      assert t.log[|s.log|].accepted <==> t.now - s.store[n] <= NONCE_TTL;
    }
    assert (s.log + [Consumed(n, t.now, true)])[|s.log|].accepted;
  }
}
