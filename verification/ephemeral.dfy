/**
 * `WebauthnEphemeralConfig`: the in-memory implementation of the webauthn
 * storage contract. It keeps one pending challenge per user, a list of
 * enrolled credentials per user, and the relying party's name, id and
 * origin. Every operation is a pure transition from one `Config` to the
 * next; operations that take `&mut self` return a `Step` holding the new
 * state together with the value the Rust method returns.
 */
module Ephemeral {
  import opened Wrappers
  import opened Proto
  import Vec

  /** The store's state: the two maps and the three relying-party strings. */
  datatype Config = Config(
    chals: map<UserId, Challenge>,
    creds: map<UserId, seq<Credential>>,
    rpName: string,
    rpId: string,
    rpOrigin: string)

  /** The state after a mutating call, and what the call returned. */
  datatype Step<R> = Step(state: Config, result: R)

  /** Neither relying-party string changed between `a` and `b`. */
  predicate SameRelyingParty(a: Config, b: Config)
  {
    a.rpName == b.rpName && a.rpId == b.rpId && a.rpOrigin == b.rpOrigin
  }

  /** `m` and `m'` agree on every key except possibly `u`. */
  predicate AgreeExcept<V(==)>(m: map<UserId, V>, m': map<UserId, V>, u: UserId)
  {
    m - {u} == m' - {u}
  }

  /** `BTreeMap::get`: the value under `u`, if any. */
  function Lookup<V>(m: map<UserId, V>, u: UserId): (r: Option<V>)
    ensures r.Some? <==> u in m
    ensures r.Some? ==> r.value == m[u]
  {
    if u in m then Some(m[u]) else None
  }

  /**
   * `new(rp_name, rp_origin, rp_id)`: note the argument order, origin
   * before id. Both maps start empty.
   */
  function New(rpName: string, rpOrigin: string, rpId: string): (c: Config)
    ensures c.chals == map[] && c.creds == map[]
    ensures c.rpName == rpName && c.rpId == rpId && c.rpOrigin == rpOrigin
  {
    Config(map[], map[], rpName, rpId, rpOrigin)
  }

  function GetRelyingPartyName(c: Config): (r: string)
  {
    c.rpName
  }

  function GetRelyingPartyId(c: Config): (r: string)
  {
    c.rpId
  }

  function GetOrigin(c: Config): (r: string)
  {
    c.rpOrigin
  }

  /**
   * `persist_challenge`: store `challenge` as the user's pending one,
   * discarding any earlier one. Never fails.
   */
  function PersistChallenge(c: Config, userid: UserId, challenge: Challenge): (s: Step<Result<(), ()>>)
    ensures s.result.Ok?
    ensures userid in s.state.chals && s.state.chals[userid] == challenge
    ensures AgreeExcept(s.state.chals, c.chals, userid)
    ensures s.state.creds == c.creds
    ensures SameRelyingParty(s.state, c)
  {
    Step(c.(chals := c.chals[userid := challenge]), Ok(()))
  }

  /**
   * `retrieve_challenge`: a destructive read. Returns the user's pending
   * challenge, if any, and removes it; absence is not an error.
   */
  function RetrieveChallenge(c: Config, userid: UserId): (s: Step<Option<Challenge>>)
    ensures s.result.Some? <==> userid in c.chals
    ensures s.result.Some? ==> s.result.value == c.chals[userid]
    ensures userid !in s.state.chals
    ensures AgreeExcept(s.state.chals, c.chals, userid)
    ensures s.state.creds == c.creds
    ensures SameRelyingParty(s.state, c)
  {
    var r := if userid in c.chals then Some(c.chals[userid]) else None;
    Step(c.(chals := c.chals - {userid}), r)
  }

  /**
   * `does_exist_credential`: whether `cred` is, by structural equality,
   * in the user's list. A user without a list yields `false`; the result
   * is never an error.
   */
  function DoesExistCredential(c: Config, userid: UserId, cred: Credential): (r: Result<bool, ()>)
    ensures r.Ok?
    ensures r.value <==> userid in c.creds && cred in c.creds[userid]
  {
    match Lookup(c.creds, userid)
    case Some(v) => Ok(cred in v)
    case None => Ok(false)
  }

  /**
   * `persist_credential`: append `cred` to the user's list, creating the
   * list for a new user. No deduplication; never fails.
   */
  function PersistCredential(c: Config, userid: UserId, cred: Credential): (s: Step<Result<(), ()>>)
    ensures s.result.Ok?
    ensures userid in s.state.creds
    ensures userid in c.creds ==> s.state.creds[userid] == c.creds[userid] + [cred]
    ensures userid !in c.creds ==> s.state.creds[userid] == [cred]
    ensures AgreeExcept(s.state.creds, c.creds, userid)
    ensures s.state.chals == c.chals
    ensures SameRelyingParty(s.state, c)
  {
    var v := if userid in c.creds then c.creds[userid] else [];
    Step(c.(creds := c.creds[userid := v + [cred]]), Ok(()))
  }

  /**
   * The list after a counter update: the first element equal to `cred`
   * removed, then the copy with `counter` pushed at the end.
   */
  function UpdatedList(v: seq<Credential>, cred: Credential, counter: U32): (w: seq<Credential>)
    ensures |w| == (if cred in v then |v| else |v| + 1)
    ensures w[|w| - 1] == WithCounter(cred, counter)
    ensures w[..|w| - 1] == Vec.RemoveItem(v, cred)
    ensures multiset(w) == multiset(v) - multiset{cred} + multiset{WithCounter(cred, counter)}
  {
    var r := Vec.RemoveItem(v, cred);
    Vec.RemoveItemMultiset(v, cred);
    assert (r + [WithCounter(cred, counter)])[..|r|] == r;
    r + [WithCounter(cred, counter)]
  }

  /**
   * `credential_update_counter`: remove the first element equal to `cred`
   * (if any) and append a copy of `cred` carrying `counter`. The copy is
   * appended even when `cred` was not in the list. Fails, changing
   * nothing, only when the user has no list at all.
   */
  function CredentialUpdateCounter(c: Config, userid: UserId, cred: Credential, counter: U32): (s: Step<Result<(), ()>>)
    ensures s.result.Err? <==> userid !in c.creds
    ensures s.result.Err? ==> s.state == c
    ensures userid in c.creds ==>
      && userid in s.state.creds
      && var v, w := c.creds[userid], s.state.creds[userid];
      && |w| == (if cred in v then |v| else |v| + 1)
      && w[|w| - 1] == WithCounter(cred, counter)
      && w[..|w| - 1] == Vec.RemoveItem(v, cred)
      && multiset(w) == multiset(v) - multiset{cred} + multiset{WithCounter(cred, counter)}
    ensures AgreeExcept(s.state.creds, c.creds, userid)
    ensures s.state.chals == c.chals
    ensures SameRelyingParty(s.state, c)
  {
    if userid in c.creds then
      Step(c.(creds := c.creds[userid := UpdatedList(c.creds[userid], cred, counter)]), Ok(()))
    else
      Step(c, Err(()))
  }

  /**
   * `credential_report_invalid_counter`: remove the first element equal to
   * `cred`; the observed counter is ignored. Fails, changing nothing, only
   * when the user has no list at all.
   */
  function CredentialReportInvalidCounter(c: Config, userid: UserId, cred: Credential, counter: U32): (s: Step<Result<(), ()>>)
    ensures s.result.Err? <==> userid !in c.creds
    ensures s.result.Err? ==> s.state == c
    ensures userid in c.creds ==>
      && userid in s.state.creds
      && var v, w := c.creds[userid], s.state.creds[userid];
      && |w| == (if cred in v then |v| - 1 else |v|)
      && w == Vec.RemoveItem(v, cred)
      && multiset(w) == multiset(v) - multiset{cred}
      && (cred !in v ==> w == v)
    ensures AgreeExcept(s.state.creds, c.creds, userid)
    ensures s.state.chals == c.chals
    ensures SameRelyingParty(s.state, c)
  {
    if userid in c.creds then
      var v := c.creds[userid];
      Vec.RemoveItemMultiset(v, cred);
      Step(c.(creds := c.creds[userid := Vec.RemoveItem(v, cred)]), Ok(()))
    else
      Step(c, Err(()))
  }

  /** `retrieve_credentials`: the user's list, or `None` for an unknown user. */
  function RetrieveCredentials(c: Config, userid: UserId): (r: Option<seq<Credential>>)
    ensures r.Some? <==> userid in c.creds
    ensures r.Some? ==> r.value == c.creds[userid]
  {
    Lookup(c.creds, userid)
  }
}
