/**
 * Sequences of mutating calls on the store, as the protocol engine issues
 * them. The lemmas lift the one-call frame conditions to whole traces:
 * the relying-party strings never change, the challenge map evolves from
 * the challenge calls alone, and the credential map from the credential
 * calls alone.
 */
module Trace {
  import opened Proto
  import opened Ephemeral
  import Vec

  /** One mutating call of the storage contract. */
  datatype Op =
    | PersistChallengeOp(userid: UserId, challenge: Challenge)
    | RetrieveChallengeOp(userid: UserId)
    | PersistCredentialOp(userid: UserId, cred: Credential)
    | UpdateCounterOp(userid: UserId, cred: Credential, counter: U32)
    | ReportInvalidCounterOp(userid: UserId, cred: Credential, counter: U32)

  /** The state after one call. */
  function Apply(c: Config, op: Op): (c': Config)
  {
    match op
    case PersistChallengeOp(u, ch) => PersistChallenge(c, u, ch).state
    case RetrieveChallengeOp(u) => RetrieveChallenge(c, u).state
    case PersistCredentialOp(u, cred) => PersistCredential(c, u, cred).state
    case UpdateCounterOp(u, cred, n) => CredentialUpdateCounter(c, u, cred, n).state
    case ReportInvalidCounterOp(u, cred, n) => CredentialReportInvalidCounter(c, u, cred, n).state
  }

  /** The state after the calls of `ops`, in order. */
  function Run(c: Config, ops: seq<Op>): (c': Config)
    decreases |ops|
  {
    if |ops| == 0 then c else Run(Apply(c, ops[0]), ops[1..])
  }

  /** One call's effect on the challenge map alone: insert on persist, remove on retrieve. */
  function ChallengeStep(m: map<UserId, Challenge>, op: Op): (m': map<UserId, Challenge>)
  {
    match op
    case PersistChallengeOp(u, ch) => m[u := ch]
    case RetrieveChallengeOp(u) => m - {u}
    case _ => m
  }

  /**
   * One call's effect on the credential map alone: append on persist,
   * remove-first-then-append on update, remove-first on report, and
   * unknown users left alone.
   */
  function CredentialStep(m: map<UserId, seq<Credential>>, op: Op): (m': map<UserId, seq<Credential>>)
  {
    match op
    case PersistCredentialOp(u, cred) =>
      m[u := (if u in m then m[u] else []) + [cred]]
    case UpdateCounterOp(u, cred, n) =>
      if u in m then m[u := UpdatedList(m[u], cred, n)] else m
    case ReportInvalidCounterOp(u, cred, n) =>
      if u in m then m[u := Vec.RemoveItem(m[u], cred)] else m
    case _ => m
  }

  /** Reference semantics of the challenge map: the challenge calls of `ops`, credential calls skipped. */
  function ChallengesAfter(m: map<UserId, Challenge>, ops: seq<Op>): (m': map<UserId, Challenge>)
    decreases |ops|
  {
    if |ops| == 0 then m else ChallengesAfter(ChallengeStep(m, ops[0]), ops[1..])
  }

  /** Reference semantics of the credential map: the credential calls of `ops`, challenge calls skipped. */
  function CredentialsAfter(m: map<UserId, seq<Credential>>, ops: seq<Op>): (m': map<UserId, seq<Credential>>)
    decreases |ops|
  {
    if |ops| == 0 then m else CredentialsAfter(CredentialStep(m, ops[0]), ops[1..])
  }

  /** Each call changes the challenge map exactly as its challenge step says. */
  lemma ApplyChallenges(c: Config, op: Op)
    ensures Apply(c, op).chals == ChallengeStep(c.chals, op)
  {
  }

  /** Each call changes the credential map exactly as its credential step says. */
  lemma ApplyCredentials(c: Config, op: Op)
    ensures Apply(c, op).creds == CredentialStep(c.creds, op)
  {
    match op
    case PersistChallengeOp(u, ch) =>
      assert Apply(c, op) == PersistChallenge(c, u, ch).state;
    case RetrieveChallengeOp(u) =>
      assert Apply(c, op) == RetrieveChallenge(c, u).state;
    case PersistCredentialOp(u, cred) =>
      assert Apply(c, op) == PersistCredential(c, u, cred).state;
    case UpdateCounterOp(u, cred, n) =>
      assert Apply(c, op) == CredentialUpdateCounter(c, u, cred, n).state;
    case ReportInvalidCounterOp(u, cred, n) =>
      assert Apply(c, op) == CredentialReportInvalidCounter(c, u, cred, n).state;
  }

  /** No call changes `rp_name`, `rp_id` or `rp_origin`. */
  lemma {:induction false} RelyingPartyFixed(c: Config, ops: seq<Op>)
    ensures SameRelyingParty(Run(c, ops), c)
    decreases |ops|
  {
    if |ops| > 0 {
      RelyingPartyFixed(Apply(c, ops[0]), ops[1..]);
    }
  }

  /** The challenge map after a trace depends only on its challenge calls. */
  lemma {:induction false} ChallengesIndependent(c: Config, ops: seq<Op>)
    ensures Run(c, ops).chals == ChallengesAfter(c.chals, ops)
    decreases |ops|
  {
    if |ops| > 0 {
      ApplyChallenges(c, ops[0]);
      ChallengesIndependent(Apply(c, ops[0]), ops[1..]);
    }
  }

  /** The credential map after a trace depends only on its credential calls. */
  lemma {:induction false} CredentialsIndependent(c: Config, ops: seq<Op>)
    ensures Run(c, ops).creds == CredentialsAfter(c.creds, ops)
    decreases |ops|
  {
    if |ops| > 0 {
      ApplyCredentials(c, ops[0]);
      CredentialsIndependent(Apply(c, ops[0]), ops[1..]);
    }
  }

  /** Two users' credential lists evolve separately: calls for one never touch the other's. */
  lemma {:induction false} OtherUserCredentialsFixed(c: Config, v: UserId, ops: seq<Op>)
    requires forall i :: 0 <= i < |ops| ==> ops[i].userid != v
    ensures RetrieveCredentials(Run(c, ops), v) == RetrieveCredentials(c, v)
    decreases |ops|
  {
    if |ops| > 0 {
      var c' := Apply(c, ops[0]);
      assert v in c'.creds - {ops[0].userid} <==> v in c.creds - {ops[0].userid};
      OtherUserCredentialsFixed(c', v, ops[1..]);
    }
  }
}
