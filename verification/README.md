# Ephemeral webauthn configuration provider, in Dafny

This project models `WebauthnEphemeralConfig` from webauthn-rs. It is the in-memory
implementation of the `WebauthnConfig` storage contract that the webauthn protocol engine calls.
The store holds three kinds of state:

- at most one pending challenge per user;
- a list of enrolled credentials per user;
- the relying party's name, id and origin, fixed when the store is built.

Each trait method is a pure transition over an immutable `Config` record (module `Ephemeral`).
A method that takes `&mut self` returns a `Step`, which holds the new state and the value the Rust
method returns. Rust's `Option` and `Result<(), ()>` come from module `Wrappers`. `Vec::remove_item`
removes only the first element equal (`==`) to its argument. Module `Vec` models it
twice and proves the two agree:

- a recursive function, `RemoveItem`;
- the standard library's position-then-remove algorithm, `RemoveItemByPosition`.

Module `EphemeralProperties` proves properties that span several calls: the challenge round trip
and overwrite, the credential update and report sequences, isolation between users, and
construction. Module `Trace` lifts the one-call frame conditions to any sequence of calls.

The user id, challenge and credential types come from `crate::proto`, which is not part of this
model. Module `Proto` stands them in as datatypes with opaque payloads, compared by structural
equality. A credential also carries its `u32` usage counter (`U32`).

Points of the code's behaviour that the model pins down:

- `new` takes `(rp_name, rp_origin, rp_id)`, origin before id (src/ephemeral.rs:122). A caller
  passing name, id, origin gets id and origin swapped (`EphemeralProperties.SwappedDemoArguments`).
- The counter update removes the first equal credential and pushes the updated copy at the end
  of the list, even when nothing was removed (src/ephemeral.rs:75-78).
- The only failure is `Err(())`, and only for a user with no list at all. A user whose last
  credential was reported keeps an empty list, and further counter calls for that user succeed.

## Model

| member | source | states |
|---|---|---|
| Proto.WithCounter | src/ephemeral.rs:76-77 | the updated copy keeps everything but the counter, takes the new counter, and equals the original exactly when the counter was already that value |
| Vec.RemoveItem | src/ephemeral.rs:75 | `remove_item` leaves the list unchanged when the item is absent, and otherwise makes it exactly one element shorter (which element goes is stated by `Vec.RemoveItemAtFirstIndex`, the multiset effect by `Vec.RemoveItemMultiset`) |
| Vec.RemoveItemMultiset | src/ephemeral.rs:97 | `remove_item` takes exactly one copy of the item out of the list's multiset, or nothing when there is none |
| Vec.RemoveItemAtFirstIndex | src/ephemeral.rs:97 | the element removed is the one at the first index equal to the item; elements before and after it stay in order |
| Vec.Position | src/ephemeral.rs:75 | the linear scan finds nothing exactly when the item is absent; otherwise it returns the first index holding the item |
| Vec.RemoveItemByPosition | src/ephemeral.rs:97 | position-then-remove gives the same list as `RemoveItem` and returns the removed item exactly when it was present |
| Vec.RemoveItemAppendedFresh | src/ephemeral.rs:75-78 | removing an item just appended to a list that did not hold it gives back the original list |
| Vec.RemoveItemMembership | src/ephemeral.rs:97 | after removal an element is present iff it was present and differs from the item, or it is the item and occurred at least twice |
| Ephemeral.New | src/ephemeral.rs:122-130 | both maps start empty; the name, origin and id land in their own fields, with origin taken as the second argument |
| Ephemeral.PersistChallenge | src/ephemeral.rs:35-38 | always `Ok`; the user's pending challenge becomes the given one; other users' challenges, the credentials and the relying-party strings are unchanged |
| Ephemeral.RetrieveChallenge | src/ephemeral.rs:41-43 | returns `Some` exactly when the user had a pending challenge, and then that challenge; afterwards the user has none; nothing else changes |
| Ephemeral.DoesExistCredential | src/ephemeral.rs:46-51 | never an error; `true` exactly when the user has a list and the credential is in it, compared with `==` |
| Ephemeral.PersistCredential | src/ephemeral.rs:54-64 | always `Ok`; an existing list gains the credential at its end with no deduplication; a new user gets a one-element list; nothing else changes |
| Ephemeral.UpdatedList | src/ephemeral.rs:75-78 | removing the first match and pushing the updated copy keeps the length when the credential was present and grows it by one otherwise; the list ends with the copy after the list minus the first match; the multiset trades one copy of the credential for the updated one |
| Ephemeral.CredentialUpdateCounter | src/ephemeral.rs:67-86 | `Err` with the state unchanged exactly when the user has no list; otherwise the list's length is kept when the credential was present and grows by one when absent; it ends with the updated copy after the list minus the first match; the multiset trades one copy of the credential for the copy with the new counter |
| Ephemeral.CredentialReportInvalidCounter | src/ephemeral.rs:89-105 | `Err` with the state unchanged exactly when the user has no list; otherwise the list becomes `RemoveItem` of it, so only the first equal element goes and the rest keep their order; length down by one when present, list unchanged when absent; one copy leaves the multiset |
| Ephemeral.Lookup | src/ephemeral.rs:108-110 | `BTreeMap::get`, as used by `does_exist_credential` (line 47) and `retrieve_credentials`: `Some` exactly when the key is present, and then its value |
| Ephemeral.RetrieveCredentials | src/ephemeral.rs:108-110 | `Some` exactly when the user has a list, and then that list |
| EphemeralProperties.ChallengeRoundTrip | src/ephemeral.rs:35-43 | persist then retrieve returns the challenge; a second retrieve returns `None` and changes nothing; only that user's entry is gone and the credentials are untouched |
| EphemeralProperties.RetrieveWithoutPersist | src/ephemeral.rs:41-43 | retrieving for a user with no pending challenge returns `None` and leaves the whole state as it was |
| EphemeralProperties.ChallengeOverwrite | src/ephemeral.rs:35-38 | two persists for one user leave the same state as the second alone, and only the second challenge is retrievable |
| EphemeralProperties.ChallengeIsolation | src/ephemeral.rs:35-43 | persisting or retrieving one user's challenge does not change what another user retrieves |
| EphemeralProperties.PersistThenExists | src/ephemeral.rs:46-64 | after persisting a credential it exists and the user has a list; whether any other credential exists is as before |
| EphemeralProperties.CredentialIsolation | src/ephemeral.rs:54-110 | persist, update and report on one user leave another user's retrieved credentials unchanged |
| EphemeralProperties.UpdateAfterPersist | src/ephemeral.rs:54-86 | persisting a credential not yet held and then updating its counter leaves the earlier list plus the updated copy; the original is gone unless its counter already had the new value |
| EphemeralProperties.ReportAfterPersist | src/ephemeral.rs:54-105 | persisting a credential not yet held and then reporting it restores the earlier list, and the credential no longer exists |
| EphemeralProperties.ReportRemovesOneCopy | src/ephemeral.rs:97 | reporting a credential that was persisted twice removes one copy only, so it still exists |
| EphemeralProperties.EmptyListIsNotUnknown | src/ephemeral.rs:73-103 | counter calls fail for a user never seen, but succeed for a user whose only credential was reported, who keeps an empty list |
| EphemeralProperties.StaleUpdateDuplicates | src/ephemeral.rs:75-78 | two updates with the same stale credential value leave two updated copies, because the second finds nothing to remove |
| EphemeralProperties.Construction | src/ephemeral.rs:25-130 | on a new store `GetRelyingPartyName`, `GetRelyingPartyId` and `GetOrigin` return name, id and origin from their own arguments; no challenge or credential exists, and counter calls fail |
| EphemeralProperties.ReportIgnoresCounter | src/ephemeral.rs:93-98 | the observed counter passed to a report has no effect: any two counters give the same state and result |
| EphemeralProperties.SwappedDemoArguments | src/ephemeral.rs:122-129 | `new("Demo RP", "example.org", "https://example.org")` has id "https://example.org" and origin "example.org", because the second argument is the origin |
| EphemeralProperties.DemoConfiguration | src/ephemeral.rs:113-130 | `new("Demo RP", "https://example.org", "example.org")` has name "Demo RP", id "example.org" and origin "https://example.org" |
| EphemeralProperties.NoCrossUserLeakage | src/ephemeral.rs:54-64 | on a fresh store, two users who each persist one credential retrieve exactly their own one-element list |
| Trace.ApplyChallenges | src/ephemeral.rs:35-43 | every call changes the challenge map as the challenge-only step says; credential calls leave it alone |
| Trace.ApplyCredentials | src/ephemeral.rs:46-105 | every call changes the credential map as the credential-only step says; challenge calls leave it alone |
| Trace.RelyingPartyFixed | src/ephemeral.rs:16-20 | after any sequence of calls `rp_name`, `rp_id` and `rp_origin` are as they were |
| Trace.ChallengesIndependent | src/ephemeral.rs:35-110 | after any sequence of calls, the challenge map equals the reference fold over the challenge calls alone |
| Trace.CredentialsIndependent | src/ephemeral.rs:46-110 | after any sequence of calls, the credential map equals the reference fold over the credential calls alone |
| Trace.OtherUserCredentialsFixed | src/ephemeral.rs:54-105 | a sequence of calls that never names a user does not change what that user retrieves |

## Left out

- `Credential`'s `PartialEq` (in `crate::proto`) is not part of this model. The model takes it to
  compare every field, the counter included, as a derived `PartialEq` does. Three members depend
  on that choice: `Proto.WithCounter` (the copy equals the original only when the counter is
  unchanged), `EphemeralProperties.StaleUpdateDuplicates`, and the `cred.counter != n` clause of
  `EphemeralProperties.UpdateAfterPersist`. If the real impl compared only the credential id, a
  second stale update would replace the first copy rather than leave two.
- The `WebauthnConfig` trait declaration is not part of this model. The operations are plain
  functions over `Config`, and the model has no interface type.
- The contents of `UserId`, `Challenge` and `Credential` (`crate::proto`) are not part of this model.
  Key material, challenge generation and signature or attestation checks belong to the protocol
  engine. The model keeps only equality and the credential's counter.
- `BTreeMap` key order and iteration order are left out. No operation depends on them, so Dafny
  `map` is used.
- The borrows returned by `retrieve_credentials` (`&Vec`) and `get_origin` (`&String`) are modelled
  as returned values. Rust lifetimes and aliasing are left out.
- `#[derive(Debug)]`, thread safety, and the loss of all state at process exit are left out. The
  file contains no concurrency or I/O logic.
- The getters `GetRelyingPartyName`, `GetRelyingPartyId` and `GetOrigin` have no contracts of their
  own. `EphemeralProperties.Construction` and `Trace.RelyingPartyFixed` state what they return.
