/**
 * Properties of the ephemeral store that relate several calls: the
 * challenge round trip and overwrite, credential append/update/report
 * sequences, isolation between users, and construction.
 */
module EphemeralProperties {
  import opened Wrappers
  import opened Proto
  import opened Ephemeral
  import Vec

  /** The user's list, or the empty list for a user without one. */
  function ListOf(c: Config, u: UserId): (v: seq<Credential>)
  {
    if u in c.creds then c.creds[u] else []
  }

  /**
   * Persisting a challenge and retrieving it returns that challenge; a
   * second retrieval finds nothing and changes nothing. Only the user's
   * own entry is gone; the credentials are untouched.
   */
  lemma ChallengeRoundTrip(c: Config, u: UserId, ch: Challenge)
    ensures
      var s1 := PersistChallenge(c, u, ch).state;
      var r1 := RetrieveChallenge(s1, u);
      var r2 := RetrieveChallenge(r1.state, u);
      && r1.result == Some(ch)
      && r2.result == None
      && r2.state == r1.state
      && r1.state.chals == c.chals - {u}
      && r1.state.creds == c.creds
  {
    var r1 := RetrieveChallenge(PersistChallenge(c, u, ch).state, u);
    assert r1.state.chals - {u} == r1.state.chals;
  }

  /** A user with no pending challenge retrieves nothing, and the state is unchanged. */
  lemma RetrieveWithoutPersist(c: Config, u: UserId)
    requires u !in c.chals
    ensures RetrieveChallenge(c, u) == Step(c, None)
  {
    assert c.chals - {u} == c.chals;
  }

  /**
   * A second persist for the same user supersedes the first: the state is
   * as if only the second had happened, and only it is retrievable.
   */
  lemma ChallengeOverwrite(c: Config, u: UserId, ch1: Challenge, ch2: Challenge)
    ensures
      var s := PersistChallenge(PersistChallenge(c, u, ch1).state, u, ch2).state;
      && s == PersistChallenge(c, u, ch2).state
      && RetrieveChallenge(s, u).result == Some(ch2)
  {
  }

  /** Persisting or retrieving one user's challenge leaves another user's challenge as it was. */
  lemma ChallengeIsolation(c: Config, u: UserId, v: UserId, ch: Challenge)
    requires u != v
    ensures RetrieveChallenge(PersistChallenge(c, u, ch).state, v).result == RetrieveChallenge(c, v).result
    ensures RetrieveChallenge(RetrieveChallenge(c, u).state, v).result == RetrieveChallenge(c, v).result
  {
    assert (c.chals - {u}) - {v} == (c.chals - {v}) - {u};
  }

  /**
   * After persisting `cred`, it exists and the user has a list; whether
   * any other credential exists is as before, so one never persisted for
   * the user still does not exist.
   */
  lemma PersistThenExists(c: Config, u: UserId, cred: Credential, other: Credential)
    requires other != cred
    ensures
      var s := PersistCredential(c, u, cred).state;
      && DoesExistCredential(s, u, cred) == Ok(true)
      && RetrieveCredentials(s, u).Some?
      && DoesExistCredential(s, u, other) == DoesExistCredential(c, u, other)
  {
  }

  /** Credential operations on one user never change what another user retrieves. */
  lemma CredentialIsolation(c: Config, u: UserId, v: UserId, cred: Credential, counter: U32)
    requires u != v
    ensures RetrieveCredentials(PersistCredential(c, u, cred).state, v) == RetrieveCredentials(c, v)
    ensures RetrieveCredentials(CredentialUpdateCounter(c, u, cred, counter).state, v) == RetrieveCredentials(c, v)
    ensures RetrieveCredentials(CredentialReportInvalidCounter(c, u, cred, counter).state, v) == RetrieveCredentials(c, v)
  {
    var s1 := PersistCredential(c, u, cred).state;
    var s2 := CredentialUpdateCounter(c, u, cred, counter).state;
    var s3 := CredentialReportInvalidCounter(c, u, cred, counter).state;
    assert v in s1.creds - {u} <==> v in c.creds - {u};
    assert v in s2.creds - {u} <==> v in c.creds - {u};
    assert v in s3.creds - {u} <==> v in c.creds - {u};
  }

  /**
   * Persisting a credential not yet held and then updating its counter
   * leaves the earlier list followed by the updated copy; the original,
   * unmodified credential is gone unless the counter was already `n`.
   */
  lemma UpdateAfterPersist(c: Config, u: UserId, cred: Credential, n: U32)
    requires cred !in ListOf(c, u)
    ensures
      var s := CredentialUpdateCounter(PersistCredential(c, u, cred).state, u, cred, n);
      && s.result == Ok(())
      && RetrieveCredentials(s.state, u) == Some(ListOf(c, u) + [WithCounter(cred, n)])
      && DoesExistCredential(s.state, u, WithCounter(cred, n)) == Ok(true)
      && (cred.counter != n ==> DoesExistCredential(s.state, u, cred) == Ok(false))
  {
    var base, updated := ListOf(c, u), WithCounter(cred, n);
    var s1 := PersistCredential(c, u, cred).state;
    assert s1.creds[u] == base + [cred];
    Vec.RemoveItemAppendedFresh(base, cred);
    var w := CredentialUpdateCounter(s1, u, cred, n).state.creds[u];
    assert w == UpdatedList(base + [cred], cred, n) == base + [updated];
    assert updated in w;
    assert cred in w <==> cred in base || cred == updated;
  }

  /**
   * Persisting a credential not yet held and then reporting it restores
   * the earlier list (the empty one for a new user), so it no longer exists.
   */
  lemma ReportAfterPersist(c: Config, u: UserId, cred: Credential, n: U32)
    requires cred !in ListOf(c, u)
    ensures
      var s := CredentialReportInvalidCounter(PersistCredential(c, u, cred).state, u, cred, n);
      && s.result == Ok(())
      && RetrieveCredentials(s.state, u) == Some(ListOf(c, u))
      && DoesExistCredential(s.state, u, cred) == Ok(false)
  {
    Vec.RemoveItemAppendedFresh(ListOf(c, u), cred);
  }

  /**
   * Reporting a credential persisted twice removes only one copy, so it
   * still exists.
   */
  lemma ReportRemovesOneCopy(c: Config, u: UserId, cred: Credential, n: U32)
    ensures
      var s1 := PersistCredential(PersistCredential(c, u, cred).state, u, cred).state;
      var s2 := CredentialReportInvalidCounter(s1, u, cred, n).state;
      && |s2.creds[u]| == |ListOf(c, u)| + 1
      && DoesExistCredential(s2, u, cred) == Ok(true)
  {
    var s1 := PersistCredential(PersistCredential(c, u, cred).state, u, cred).state;
    var w := s1.creds[u];
    assert w == ListOf(c, u) + [cred] + [cred];
    assert multiset(w)[cred] >= 2;
    Vec.RemoveItemMembership(w, cred, cred);
  }

  /** The observed counter passed to a report has no effect on the outcome. */
  lemma ReportIgnoresCounter(c: Config, u: UserId, cred: Credential, n: U32, m: U32)
    ensures CredentialReportInvalidCounter(c, u, cred, n) == CredentialReportInvalidCounter(c, u, cred, m)
  {
  }

  /**
   * The counter operations fail only for a user with no list at all: a
   * user whose only credential was reported keeps an empty list, and an
   * update for it then succeeds, whereas the same update before the user
   * was known fails.
   */
  lemma EmptyListIsNotUnknown(c: Config, u: UserId, cred: Credential, n: U32, m: U32)
    requires u !in c.creds
    ensures CredentialUpdateCounter(c, u, cred, m).result.Err?
    ensures CredentialReportInvalidCounter(c, u, cred, m).result.Err?
    ensures
      var s := CredentialReportInvalidCounter(PersistCredential(c, u, cred).state, u, cred, n).state;
      && RetrieveCredentials(s, u) == Some([])
      && CredentialUpdateCounter(s, u, cred, m).result.Ok?
      && CredentialReportInvalidCounter(s, u, cred, m).result.Ok?
  {
    Vec.RemoveItemAppendedFresh([], cred);
  }

  /**
   * Updating twice with the same, now stale, credential value finds
   * nothing to remove the second time and appends again, leaving two
   * updated copies.
   */
  lemma StaleUpdateDuplicates(c: Config, u: UserId, cred: Credential, n: U32)
    requires u !in c.creds
    requires cred.counter != n
    ensures
      var s1 := CredentialUpdateCounter(PersistCredential(c, u, cred).state, u, cred, n).state;
      var s2 := CredentialUpdateCounter(s1, u, cred, n).state;
      RetrieveCredentials(s2, u) == Some([WithCounter(cred, n), WithCounter(cred, n)])
  {
    Vec.RemoveItemAppendedFresh([], cred);
    var updated := WithCounter(cred, n);
    var s1 := CredentialUpdateCounter(PersistCredential(c, u, cred).state, u, cred, n).state;
    assert s1.creds[u] == [updated];
    assert cred !in [updated];
    var w := CredentialUpdateCounter(s1, u, cred, n).state.creds[u];
    assert |w| == 2;
    assert w[..1] == [updated];
    assert w[1] == updated;
    assert w == w[..1] + [w[1]];
    assert w == [updated, updated];
  }

  /**
   * `new(name, origin, id)` starts with no challenges and no credentials,
   * and the getters return the strings it was given, each in its place.
   */
  lemma Construction(name: string, origin: string, id: string, u: UserId, cred: Credential, n: U32)
    ensures
      var c := New(name, origin, id);
      && GetRelyingPartyName(c) == name
      && GetRelyingPartyId(c) == id
      && GetOrigin(c) == origin
      && RetrieveChallenge(c, u).result == None
      && DoesExistCredential(c, u, cred) == Ok(false)
      && RetrieveCredentials(c, u) == None
      && CredentialUpdateCounter(c, u, cred, n).result.Err?
      && CredentialReportInvalidCounter(c, u, cred, n).result.Err?
  {
  }

  /** The demo configuration, with its arguments in the constructor's order. */
  lemma DemoConfiguration()
    ensures
      var c := New("Demo RP", "https://example.org", "example.org");
      && GetRelyingPartyName(c) == "Demo RP"
      && GetRelyingPartyId(c) == "example.org"
      && GetOrigin(c) == "https://example.org"
  {
  }

  /**
   * The constructor's second argument is the origin and its third the id:
   * a caller passing name, id, origin gets the two swapped.
   */
  lemma SwappedDemoArguments()
    ensures
      var c := New("Demo RP", "example.org", "https://example.org");
      && GetRelyingPartyId(c) == "https://example.org"
      && GetOrigin(c) == "example.org"
  {
  }

  /** Two users each persisting one credential on a fresh store see only their own. */
  lemma NoCrossUserLeakage(name: string, origin: string, id: string, u1: UserId, u2: UserId, c1: Credential, c2: Credential)
    requires u1 != u2
    ensures
      var s0 := New(name, origin, id);
      var s := PersistCredential(PersistCredential(s0, u1, c1).state, u2, c2).state;
      && RetrieveCredentials(s, u1) == Some([c1])
      && RetrieveCredentials(s, u2) == Some([c2])
  {
  }
}
