# Simple dashboard: mock back end

This project models the in-memory "database" and service layer of the
simple dashboard, together with the string hash it uses for passwords.

The dashboard keeps three entity stores: jobs, clients and users. Each store is an array of
records. Each record has a numeric `key` taken from a per-store counter
(`jobUniqueID`, `clientUniqueID`, `userUniqueID`), which every constructor
call reads and then increments. Operations look records up by a linear key scan.
They validate their inputs and settle with a status code:

- 0 means success;
- each distinct negative code names the check that failed: -1 to -4 and -6 to -15 (no path issues -5).

Two versions of that layer exist:

- `API.tsx` is the older one. Stores live in memory only, and every outcome is a
  resolved promise carrying the code.
- `API.ts` is the newer one:
  - reads first merge a snapshot from browser storage into memory;
  - successful writes save the whole store back;
  - failures become rejected promises;
  - it seeds more data.

`hashCode` in `util.ts` is the Java-style 32-bit string hash, `h = 31·h + c` over UTF-16 code units.
The seeded password fields hold its value.

Modules:

- `Wrappers`: `Option`.
- `Util`:
  - 32-bit wrap-around and `hashCode`;
  - a reference fold;
  - the closed polynomial form;
  - the UTF-16 encoding of a string;
  - the hashes of the seeded passwords.
- `Store`:
  - a keyed table and its key invariant (keys issued by the counter, strictly increasing in array order);
  - the key scan, constructor-plus-`push`, in-place update, `splice`;
  - a filtering reference for deletion.
- `Persistence`: the load-time merge of a saved snapshot into a live table, and its laws.
- `Service`:
  - the records, lookups and validations;
  - every mutating operation as a transition `Db -> Step(db, code)`, with the codes of both versions;
  - properties across calls.
- `Api`: the `API.ts` layer.
  - Storage is modelled as one optional snapshot per store.
  - Settlement is `Resolved`/`Rejected`.
  - It covers the read operations with their merge and the mutations with their save.
  - It has a call language and an invariant over every reachable state.
- `EarlyApi`: the `API.tsx` layer. It has:
  - its own seeds;
  - its `"true"`-string parsing in `EditClient`;
  - the invariant that every job refers to an existing client in every reachable state.

Number parsing is modelled by `Service.Parsed = Num(n) | NaN`. That covers `parseInt` and the `==` coercion
of a string id against a numeric key. `NaN` equals no key and no stored hash.

## Model

| member | source | states |
|---|---|---|
| Util.ToInt32 | ohs-simpledashboard/src/util.ts:15 | `hash \|= 0` yields a signed 32-bit value congruent to its argument modulo 2^32 |
| Util.ShiftLeft5 | ohs-simpledashboard/src/util.ts:14 | `hash << 5` is a signed 32-bit value congruent to 32·hash modulo 2^32 |
| Util.ShiftStep | ohs-simpledashboard/src/util.ts:14-15 | one loop iteration `(hash << 5) - hash + chr`, truncated, equals the Java step ToInt32(31·hash + chr) |
| Util.Utf16 | ohs-simpledashboard/src/util.ts:13 | the UTF-16 code units `charCodeAt` reads: one or two 16-bit units per character, exactly one each when no character lies beyond U+FFFF |
| Util.Utf16Bmp | ohs-simpledashboard/src/util.ts:12-13 | a string with no character beyond U+FFFF is read as its own character codes, one unit each |
| Util.HashCode | ohs-simpledashboard/src/util.ts:7-18 | the loop computes the reference fold over the code units; the result is in the 32-bit range; the empty string hashes to 0 |
| Util.HashSnoc | ohs-simpledashboard/src/util.ts:12-17 | prefix compositionality: the hash of s+[c] is one step applied to the hash of s |
| Util.HashSingle | ohs-simpledashboard/src/util.ts:12-17 | a one-unit string hashes to its own code unit |
| Util.HashIsPolynomial | ohs-simpledashboard/src/util.ts:7-18 | the hash equals Σ s[i]·31^(n-1-i) reduced to signed 32 bits, the closed form of Java's String.hashCode |
| Util.PasswordHash | ohs-simpledashboard/src/API.tsx:304 | hashCode("password") = 1216985755, the stored hash of the seeded user "shadcn" |
| Util.TestpassHash | ohs-simpledashboard/src/API.ts:328 | hashCode("testpass!") = -1164974882, the stored hash of the seeded user "disilverstein" |
| Store.FindKey | ohs-simpledashboard/src/API.ts:58-65 | the scan returns the first index whose key equals k, and nothing exactly when no record has key k |
| Store.FindKeyUnique | ohs-simpledashboard/src/API.ts:37-54 | under the key invariant every key occurs once, so the scan for a record's key finds that record |
| Store.Insert | ohs-simpledashboard/src/API.ts:46-53 | the constructor gives the new record the counter value, advances the counter and appends; the invariant is kept and the key was not in use |
| Store.SetData | ohs-simpledashboard/src/API.ts:78-83 | in-place assignment changes one record's fields, never its key, and no other record |
| Store.RemoveAt | ohs-simpledashboard/src/API.ts:478-480 | `splice(i, 1)` drops exactly index i and keeps the order and the counter; the removed key is gone |
| Store.RemoveIsWithout | ohs-simpledashboard/src/API.ts:476-481 | with increasing keys, splicing at the first match equals filtering every record with that key |
| Persistence.MergeOne | ohs-simpledashboard/src/API.ts:77-89 | a saved record with a live key overwrites the fields of the first record with that key and leaves every other record as it was; otherwise a new record is pushed under a fresh counter key; the invariant is kept |
| Persistence.Merge | ohs-simpledashboard/src/API.ts:72-93 | the merge never removes or reorders live records, appends at most one record per saved record, and advances the counter once per append |
| Persistence.Load | ohs-simpledashboard/src/API.ts:72-93 | a null item leaves the store as it is; a saved snapshot is merged: at most one record is appended per saved record, every appended record takes the next counter key in turn and the counter ends one past the last, live records end with the last saved version of their fields, nothing is appended when every saved key is live; when no saved key meets the counter's range, the saved records with non-live keys are appended in saved order under consecutive counter keys; every record holds its own old fields or a saved record's, and the store's own snapshot loads back as the store |
| Persistence.MergeProvenance | ohs-simpledashboard/src/API.ts:76-89 | after the merge every record holds either its own old fields or the fields of some saved record |
| Persistence.MergeOverwrites | ohs-simpledashboard/src/API.ts:78-83 | every live record ends with the fields of the last saved record with its key, and keeps its own fields when none has it |
| Persistence.MergeAllPresent | ohs-simpledashboard/src/API.ts:77-89 | when every saved key is live, nothing is appended and the counter does not move |
| Persistence.MergeIdempotentWhenPresent | ohs-simpledashboard/src/API.ts:72-93 | merging the same snapshot twice equals merging it once, provided every saved key is live |
| Persistence.SaveThenLoad | ohs-simpledashboard/src/API.ts:67-93 | loading the snapshot just saved from the same store leaves the store unchanged |
| Persistence.MergeCounterKeys | ohs-simpledashboard/src/API.ts:84-88 | every record the merge appends is keyed by the counter in turn, the m-th appended record under old counter + m, so no key below the old counter is reissued |
| Persistence.MergeAppends | ohs-simpledashboard/src/API.ts:84-88 | when no saved key meets the counter's range, the merge appends exactly the saved records with non-live keys, in saved order: the m-th under key counter + m with its saved fields, and the counter advances once per append |
| Persistence.Fresh | ohs-simpledashboard/src/API.ts:77-89 | the records the merge appends are drawn from the snapshot, at most one per saved record, and none has a live key |
| Persistence.LatestLast | ohs-simpledashboard/src/API.ts:78-83 | the last saved record with a key decides that key's fields |
| Persistence.MergeSplit | ohs-simpledashboard/src/API.ts:76-89 | the merge processes saved records one at a time, so merging a snapshot in two pieces equals merging it whole |
| Persistence.MergeSameKeys | ohs-simpledashboard/src/API.ts:78-83 | a snapshot holding exactly the live keys in the same order replaces every record's fields and appends nothing |
| Persistence.LoadExtends | ohs-simpledashboard/src/API.ts:72-93 | a store keyed 1..m with its counter at m + 1, loading a snapshot keyed 1..n with n at least m, becomes exactly the snapshot with its counter at n + 1 |
| Persistence.MergeConsecutive | ohs-simpledashboard/src/API.ts:84-88 | saved keys that continue the counter are appended verbatim |
| Persistence.LoadIntoFresh | ohs-simpledashboard/src/API.ts:72-93 | a snapshot keyed 1..n loaded into an empty store with a fresh counter is reproduced exactly |
| Persistence.LoadRenumbers | ohs-simpledashboard/src/API.ts:84-88 | one concrete instance of the append law: a saved record keyed 5 loaded into an empty store with counter 1 comes back keyed 1 |
| Persistence.LoadTwiceDuplicates | ohs-simpledashboard/src/API.ts:72-93 | loading one snapshot twice can duplicate a record: the merge is not idempotent |
| Persistence.LoadCollides | ohs-simpledashboard/src/API.ts:77-89 | a renumbered record can take a key that a later saved record then overwrites, so two saved records become one |
| Service.SeedClients | ohs-simpledashboard/src/API.tsx:198-202 | three active clients under keys 1..3, with the client counter at 4 |
| Service.FindById | ohs-simpledashboard/src/API.tsx:204-211 | a lookup by a parsed id finds nothing for NaN or an unknown key, and otherwise a record with that key |
| Service.FindUserName | ohs-simpledashboard/src/API.tsx:315-322 | the first user in array order with the username, and nothing exactly when no user has it |
| Service.ValidateClientID | ohs-simpledashboard/src/API.tsx:213-215 | true exactly when some client, active or not, has the id |
| Service.ValidateUserName | ohs-simpledashboard/src/API.tsx:324-326 | true exactly when some user has the name |
| Service.ValidateUser | ohs-simpledashboard/src/API.tsx:328-331 | under the key invariant, true exactly when a user with that key stores exactly that hash; NaN never validates |
| Service.CreateJob | ohs-simpledashboard/src/API.tsx:82-95 | -1 exactly when the client id is not valid, with nothing changed; otherwise an unfinished job under the next job key is appended; the invariant is kept |
| Service.EditJob | ohs-simpledashboard/src/API.tsx:97-126 | -2 exactly for an unknown job; -3 exactly for a supplied invalid client id on a known job; nothing changes on failure; on success only that job changes, each supplied field replaces the old one, and the key is kept |
| Service.CreateClient | ohs-simpledashboard/src/API.tsx:227-238 | never fails; appends an active client under the next client key |
| Service.EditClient | ohs-simpledashboard/src/API.ts:264-288 | -4 exactly for an unknown id; on success one client's supplied fields change; no client is ever removed and no key changes |
| Service.Login | ohs-simpledashboard/src/API.tsx:333-357 | -7 exactly when no user has the name; otherwise the first such user decides: 0 with its key when the hash matches, -6 with id -1 otherwise |
| Service.CreateUser | ohs-simpledashboard/src/API.tsx:368-386 | -9 exactly for bad acting credentials, checked before -8 for a taken name; on success the user is appended under the next key; distinct usernames are kept |
| Service.UpdatePassword | ohs-simpledashboard/src/API.tsx:388-412 | -12, then -11 for an unknown target, then -10 for a wrong old hash, each exactly when its check is the first to fail; on success only the target's password changes |
| Service.DeleteUser | ohs-simpledashboard/src/API.tsx:414-438 | -15, then -14 for self-deletion, then -13 for an unknown target; on success the result equals the users filtered by that key, one fewer |
| Service.CreatedUserCanLogin | ohs-simpledashboard/src/API.tsx:368-386 | a user just created logs in with its name and hash and receives the new key |
| Service.ChangedPasswordLogsIn | ohs-simpledashboard/src/API.tsx:388-412 | after a password change the target logs in with the new hash, and a different old hash is refused with -6 |
| Service.DeletedUserCannotAuthenticate | ohs-simpledashboard/src/API.tsx:414-438 | after deletion no hash validates the deleted id |
| Service.DeleteKeepsOthers | ohs-simpledashboard/src/API.tsx:414-438 | deletion does not change whether any other id and hash validate |
| Service.EditKeepsReferences | ohs-simpledashboard/src/API.ts:208-210 | editing a client, including deactivating it, never changes which client ids are valid job references |
| Service.DeactivationReversible | ohs-simpledashboard/src/API.ts:264-288 | deactivating an active client and reactivating it restores the store exactly |
| Api.SeedJobs | ohs-simpledashboard/src/API.ts:56 | three unfinished jobs under keys 1..3, the third unassigned (client -1), with the job counter at 4 |
| Api.SeedUsers | ohs-simpledashboard/src/API.ts:328 | users "shadcn" and "disilverstein" under keys 1 and 2 with their password hashes; the counter is at 3 and the names are distinct |
| Api.SeededPasswords | ohs-simpledashboard/src/API.ts:328 | the seeded password fields are hashCode("password") and hashCode("testpass!") |
| Api.SaveJobs | ohs-simpledashboard/src/API.ts:67-70 | the jobs item becomes the live job records; memory and the other items are unchanged, and loading right after it leaves the world unchanged |
| Api.SaveClients | ohs-simpledashboard/src/API.ts:212-215 | the clients item becomes the live client records; memory and the other items are unchanged, and loading right after it leaves the world unchanged |
| Api.SaveUsers | ohs-simpledashboard/src/API.ts:357-360 | the users item becomes the live user records; memory and the other items are unchanged, and loading right after it leaves the world unchanged |
| Api.LoadJobs | ohs-simpledashboard/src/API.ts:72-93 | nothing saved leaves memory as it is; otherwise at most one job is appended per saved job, appended jobs take the next counter keys in turn and the counter advances once per append; every live job ends with the fields of the last saved job with its key; nothing is appended when every saved key is live; when no saved key meets the counter's range, the saved jobs with non-live keys are appended in saved order under consecutive counter keys; every job holds its own old fields or those of a saved job; storage and the other stores are untouched |
| Api.LoadClients | ohs-simpledashboard/src/API.ts:217-237 | the same merge laws for clients, including the append of saved clients with non-live keys under consecutive counter keys |
| Api.LoadUsers | ohs-simpledashboard/src/API.ts:362-379 | the same merge laws for users, including the append of saved users with non-live keys under consecutive counter keys |
| Api.GetAllJobs | ohs-simpledashboard/src/API.ts:95-103 | returns the whole job store after the merge: at most one job is appended per saved job, appended jobs take the next counter keys in turn and the counter advances once per append; live jobs keep their places and keys and carry the last saved version of their fields, every listed job holds old or saved fields, nothing is appended when every saved key is live, and otherwise (when no saved key meets the counter's range) the saved jobs with non-live keys follow in saved order under consecutive counter keys; storage and the other stores are untouched |
| Api.CreateNewJob | ohs-simpledashboard/src/API.ts:105-121 | rejects with -1 exactly for an invalid client, changing nothing; otherwise appends the job and saves the job store |
| Api.EditJob | ohs-simpledashboard/src/API.ts:123-157 | rejects with -2 or -3 exactly as the lookup and client check fail, changing nothing; otherwise patches the job and saves |
| Api.GetAllClients | ohs-simpledashboard/src/API.ts:239-248 | the same for clients: the whole client store after the merge, with the same merge laws, the append law included |
| Api.CreateNewClient | ohs-simpledashboard/src/API.ts:250-262 | always resolves 0, appends an active client and saves the client store |
| Api.EditClient | ohs-simpledashboard/src/API.ts:264-288 | rejects with -4 exactly for an unknown id; otherwise patches the supplied fields and saves; the client count never changes |
| Api.LoginAuth | ohs-simpledashboard/src/API.ts:382-407 | merges the saved users first, leaving memory exactly as `LoadUsersDB` does, and never rejects; -7 exactly when the merged users lack the name; otherwise the first merged user with the name decides: 0 with its key when the hash matches, -6 otherwise; the user id is -1 on every failure |
| Api.GetUserList | ohs-simpledashboard/src/API.ts:409-417 | the same for users: the whole user store after the merge, with the same merge laws, the append law included |
| Api.CreateNewUser | ohs-simpledashboard/src/API.ts:419-439 | rejects with -9 or -8 exactly as the acting credentials or the name check fail; otherwise appends the user under the counter's key, advances the counter and saves |
| Api.UpdateUserPassword | ohs-simpledashboard/src/API.ts:441-467 | rejects with -12, -11 or -10 in that order of checks; otherwise changes only the target's password and saves |
| Api.DeleteUser | ohs-simpledashboard/src/API.ts:470-496 | rejects with -15, -14 or -13 in that order of checks; otherwise the users become the filtered list, the counter stays, and the list is saved |
| Api.ReloadSeededJobs | ohs-simpledashboard/src/API.ts:56 | a new session whose saved jobs are keyed 1..n, n at least 3, lists exactly the saved jobs and continues its counter at n + 1 |
| Api.ReloadSeededClients | ohs-simpledashboard/src/API.ts:193-197 | the same for the three seeded clients |
| Api.ReloadSeededUsers | ohs-simpledashboard/src/API.ts:328 | the same for the two seeded users |
| Api.SaveThenList | ohs-simpledashboard/src/API.ts:67-103 | listing right after a save returns the live store unchanged |
| Api.LoginExamples | ohs-simpledashboard/src/API.ts:382-407 | on the seeded store "shadcn" with hashCode("password") logs in as user 1, a wrong hash gets -6 and an unknown name gets -7 |
| Api.ApplyKeeps | ohs-simpledashboard/src/API.ts:37-56 | any single call keeps the key invariant and never removes or reorders a job or a client |
| Api.Reachable | ohs-simpledashboard/src/API.ts:37-56 | from the seeds and any saved storage, every sequence of calls keeps the key invariant and every seeded job and client |
| EarlyApi.SeedJobs | ohs-simpledashboard/src/API.tsx:62 | no seeded jobs, and the job counter at 1 |
| EarlyApi.SeedUsers | ohs-simpledashboard/src/API.tsx:304 | the single user "shadcn" under key 1 with hashCode("password"), and the counter at 2 |
| EarlyApi.EditClient | ohs-simpledashboard/src/API.tsx:240-264 | the id goes through `parseInt` and the active flag is set on every successful edit, true exactly when the text is "true" |
| EarlyApi.ApplyKeepsGood | ohs-simpledashboard/src/API.tsx:82-126 | any single call keeps the key invariant, distinct usernames, and every job referring to an existing client |
| EarlyApi.Reachable | ohs-simpledashboard/src/API.tsx:62-126 | every state reachable from the seeds satisfies those three invariants |
| EarlyApi.LoginExamples | ohs-simpledashboard/src/API.tsx:333-357 | on the seeded store the right hash logs "shadcn" in as user 1, a wrong one gets -6 and an unknown name -7 |

## Left out

- Timing and scheduling are not modelled. The `setTimeout` delays, the promise machinery and the `delay` helper in `util.ts` are left out. Each operation is one atomic transition, because JavaScript runs each timer callback to completion.
- The save race is not modelled. The source notes in `SaveJobsDB` that saves could overwrite each other; with atomic transitions this cannot arise.
- `localStorage` is not modelled as text. JSON encoding, `console.log` and the key names are left out. Storage holds one optional snapshot of records per store, and a saved snapshot reads back as exactly the records written.
- The shape of a saved snapshot is trusted. Snapshots are assumed to be well formed, with numeric keys and correctly typed fields. The source casts parsed JSON without checking it.
- String-to-number coercion is abstracted. `parseInt` and the `==` comparison of a string id with a numeric key both become `Parsed`: an integer or `NaN`. Which strings parse to which integers, such as leading whitespace or trailing garbage, is left out.
- `Api.EditJob` and `Api.EditClient` take their boolean fields as `Option<bool>`. The source assigns the raw string with an `as unknown as boolean` cast, so a stored flag can really be the string "false". Only `true`/`false` values are modelled.
- `Api.CreateNewUser` takes the new password hash as an integer. The source passes it through `parseInt`, which could store `NaN`. Such a user could never log in.
- `Api.LoginAuth` merges stored users at call time and checks after the delay. The model performs both in one step.
- `Api.LoginAuth` and the other users operations do not promise distinct usernames. A merged snapshot can bring in a duplicate name, and the model proves distinctness only for the in-memory operations (`Service.CreateUser`, `EarlyApi.Reachable`).
- `EarlyApi` has no separate `GetAllJobs`, `GetAllClients` or `GetUserList` members. In `API.tsx` these return the live array unchanged, so they appear in `EarlyApi.Call` as `ListJobs`, `ListClients` and `ListUsers`, calls that leave the store as it is.
- Numbers are unbounded. Keys and counters are unbounded integers rather than IEEE doubles, since the counters never approach 2^53.
- The hash step is modelled exactly. `(hash << 5) - hash + chr` is computed on doubles before `|= 0` truncates it. Both `hash << 5` and `hash` are 32-bit values, so the magnitude stays below 2^33, so the double arithmetic is exact and the model computes it on integers.
- `Api.LoadJobs`, `Api.LoadClients`, `Api.LoadUsers`, `Api.GetAllJobs`, `Api.GetAllClients`, `Api.GetUserList` and `Persistence.Load` state the exact append law only when no saved key meets the counter's range. Otherwise a renumbered record can take a key that a later saved record then overwrites (`Persistence.LoadCollides`). For those snapshots the contracts state the following: at most one record is appended per saved record; the appended records take the counter keys old counter, old counter + 1, … in turn; the counter advances once per appended record; live records end with the last saved version of their fields; and every record holds its own old fields or a saved record's. Which saved records survive a collision is not stated.
- `Util.HashCode` works on UTF-16 code units. `Util.Utf16` gives the encoding of a Dafny string, including surrogate pairs.
- `ClientColumns` (the table column definitions in `API.tsx`) and the UI files are not part of this model.

Loading a snapshot is sometimes taken to be idempotent. The code is not: a saved record whose key is not live is pushed under a fresh counter key, so loading the same snapshot twice duplicates it. The model follows the code. `Persistence.LoadTwiceDuplicates` shows the duplication, and `Persistence.MergeIdempotentWhenPresent` gives the condition under which idempotence does hold.
