# autodapp core, modelled in Dafny

autodapp is a TMSP (Tendermint Socket Protocol) application. It keeps a
ledger in a merkle key-value store, and comes in two variants:

- `app.js` is the IoT **device ledger**. Each device, keyed by its Ed25519
  public key, holds a sequence number, a latitude, a longitude and a
  temperature.
- `identity/app.js` is the **user ledger**. Each user holds a name and an
  e-mail address.

In both variants:

- a transaction is a list of inputs. Each input names the entity it
  updates and carries a signature that only `checkTx` verifies;
- `checkTx` validates a transaction without touching the store;
- `appendTx` loads the entities the transaction names, applies the inputs
  in order, and writes the results back only if every input applied;
- `setOption` creates an entity at the key derived from a seed.

The project has three modules:

- `Common` (`common.dfy`) holds what both variants share:
  - byte strings, result codes and responses;
  - the crypto adapter, with `DeriveKeyPair`;
  - the merkle store. It is a class whose `data` map is always its
    initial contents with its ghost write log applied.
- `DeviceApp` (`device_app.dfy`) models `app.js`.
- `IdentityApp` (`identity_app.dfy`) models `identity/app.js`.

Collaborators whose code is not part of this model are fields of an `Env`
value. Every property here holds whatever they compute, except in the two
scenario methods `DeviceApp.InitApplyReplay` and
`IdentityApp.RegisterApplyReplay`. Those require a specific parse of the
option value and a specific decode of the transaction. They also require
that the records involved have non-empty encodings that decode back to the
same record. The collaborators are:

- Ed25519 verification, SHA-256, and key derivation from a seed;
- the protobuf codecs (`types.js`);
- the JSON parse of an option value;
- the e-mail regular expression.

Each `AutoDapp` class holds its store and its `Env` as constants.

`executeTx` updates the loaded objects in place and pushes the same object
once for each input that names it. The model captures this as follows:

- the loop updates a local map;
- every output entry is read from the map as it stands after the loop.

So two inputs for one key yield two copies of the final state
(`DuplicateInputsShareDevice`, `DuplicateInputsShareUser`).

`IsVerdict` specifies `validateTx`: the verdict is the first input check
that rejects, in source order. `AcceptedIff` gives its closed form: a
transaction is accepted exactly when:

- it is non-empty;
- every input is well formed and correctly signed over the sign-bytes;
- no two inputs share a key.

`RunInputs` and `Execute` specify `executeTx`. The closed-form lemmas
describe when it succeeds, where it fails, and the state it leaves.

## Model

| member | source | states |
|---|---|---|
| Common.DeriveKeyPair | identity/crypto.js:20-28 | no key pair for an empty seed; otherwise the pair derived from the seed's SHA-256 digest |
| DeviceApp.ValidateInput | app.js:166-195 | accepts iff latitude in [-90,90], longitude in [-180,180], 32-byte key, 64-byte signature and a valid signature; each rejection response holds exactly when every earlier check passed and its own check failed |
| DeviceApp.TxSignBytes | app.js:158-164 | the sign-bytes are the encoding of the transaction with every signature emptied |
| DeviceApp.SignBytesIgnoreSignatures | app.js:158-164 | transactions differing only in signatures share their sign-bytes, so signing cannot change what is signed |
| DeviceApp.UnsignedKeepsInputs | app.js:158-164 | the unsigned copy keeps input count, order and every field but the signature, and is idempotent |
| DeviceApp.ValidateTx | app.js:136-156 | the result is the verdict: EncodingError for no inputs, else the first input whose own checks fail or whose key repeats an earlier one, else Pass |
| DeviceApp.VerdictUnique | app.js:136-156 | a transaction has exactly one verdict |
| DeviceApp.AcceptedIff | app.js:136-156 | Pass iff non-empty, every input well formed and correctly signed, and keys pairwise distinct |
| DeviceApp.DuplicateReportedAfterOwnChecks | app.js:146-153 | a repeated key is reported as a duplicate only after the input passes its own checks; with a bad signature the verdict is Unauthorized |
| DeviceApp.AcceptedNeverRejects | app.js:136-156 | a rejecting verdict never carries code OK |
| DeviceApp.GetAllPubKeys | app.js:197-200 | one key per input, in input order |
| DeviceApp.RunInputs | app.js:205-223 | when the loop completes, the map keeps its keys and every input's key was loaded |
| DeviceApp.HaltedStaysHalted | app.js:208-216 | once an input fails, later inputs do not change the outcome |
| DeviceApp.ExecuteTx | app.js:202-226 | the method's result equals Execute: the first failure, or the pushed devices in input order holding their final state |
| DeviceApp.RunningFinal | app.js:205-223 | after a complete run, each loaded device has its sequence advanced once per input naming it and the fields of the last such input |
| DeviceApp.RunningIffAdmitted | app.js:205-223 | the loop completes iff each input's device was loaded and its sequence equals the stored one plus the earlier inputs for that key |
| DeviceApp.HaltedAtFirst | app.js:208-216 | a failed run stops at the first inadmissible input: UnknownAccount if its device is missing, BadNonce otherwise |
| DeviceApp.ExecuteSucceeds | app.js:202-226 | Ok iff every input admitted; then one entry per input with its key and its device's final state |
| DeviceApp.ExecuteFailsAtFirstBadInput | app.js:202-226 | an Err carries the response of the first inadmissible input |
| DeviceApp.DistinctKeysExecution | app.js:202-226 | with distinct keys: Ok iff every device exists with the input's sequence, and each output is that device with sequence+1 and the input's fields |
| DeviceApp.DuplicateInputsShareDevice | app.js:218-222 | two inputs for one device (sequences n, n+1) both apply, and the same final device is pushed twice |
| DeviceApp.SingleInputExecution | app.js:202-226 | appendTx runs no validation: one input applies iff its device exists with a matching sequence |
| DeviceApp.ReplayIsRejected | app.js:212-218 | re-applying an applied input to the updated device fails with BadNonce |
| DeviceApp.StoredAfterExecute | app.js:128-134 | storing executeTx's output sets every input's key to its device's final encoding and leaves all other keys as they were |
| DeviceApp.AutoDapp.SetOption | app.js:23-44 | "init" writes a device with sequence 0 and the given status at the seed-derived key, appending one write; it throws on an unparsable value or empty seed; other keys only log |
| DeviceApp.AutoDapp.CheckTx | app.js:67-83 | a decode failure gives EncodingError with the error text; otherwise OK iff the verdict is Pass, else the verdict's response; the store is not touched |
| DeviceApp.AutoDapp.AppendTx | app.js:46-65 | a decode failure or execution failure leaves the store unchanged and reports it; success writes exactly the executed devices in order and answers OK |
| DeviceApp.AutoDapp.LoadDevices | app.js:100-126 | the map holds exactly the requested keys with non-empty stored bytes, each decoded |
| DeviceApp.AutoDapp.StoreDevices | app.js:128-134 | one write per device, in list order, and the store equals the old store with those writes applied |
| DeviceApp.InitApplyReplay | test.js:84-88 | init of seed "1", then an update with sequence 0 is applied with OK and stored with sequence 1; the same transaction replayed fails with BadNonce |
| IdentityApp.ValidateInput | identity/app.js:182-213 | accepts iff e-mail valid, 32-byte key, 64-byte signature and a valid signature; each rejection response holds exactly when every earlier check passed and its own check failed |
| IdentityApp.TxSignBytes | identity/app.js:174-180 | the sign-bytes are the encoding of the transaction with every signature emptied |
| IdentityApp.SignBytesIgnoreSignatures | identity/app.js:174-180 | transactions differing only in signatures share their sign-bytes |
| IdentityApp.UnsignedKeepsInputs | identity/app.js:174-180 | the unsigned copy keeps input count, order and every field but the signature, and is idempotent |
| IdentityApp.ValidateTx | identity/app.js:152-172 | the result is the verdict: EncodingError for no inputs, else the first input whose own checks fail or whose key repeats, else Pass |
| IdentityApp.VerdictUnique | identity/app.js:152-172 | a transaction has exactly one verdict |
| IdentityApp.AcceptedIff | identity/app.js:152-172 | Pass iff non-empty, every input well formed and correctly signed, and keys pairwise distinct |
| IdentityApp.DuplicateReportedAfterOwnChecks | identity/app.js:159-168 | a repeated key is reported as a duplicate only after the input passes its own checks |
| IdentityApp.AcceptedNeverRejects | identity/app.js:152-172 | a rejecting verdict never carries code OK |
| IdentityApp.GetAllPubKeys | identity/app.js:215-218 | one key per input, in input order |
| IdentityApp.RunInputs | identity/app.js:221-232 | when the loop completes, the map keeps its keys and every input's key was loaded |
| IdentityApp.HaltedStaysHalted | identity/app.js:224-227 | once an input fails, later inputs do not change the outcome |
| IdentityApp.ExecuteTx | identity/app.js:220-235 | the method's result equals Execute: the first failure, or the pushed users in input order holding their final state |
| IdentityApp.RunningFinal | identity/app.js:221-232 | after a complete run, each loaded user holds the name and e-mail of the last input naming it |
| IdentityApp.RunningIffLoaded | identity/app.js:221-232 | the loop completes iff every input's user was loaded |
| IdentityApp.HaltedAtFirst | identity/app.js:224-227 | a failed run reports UnknownAccount at the first input whose user was not loaded |
| IdentityApp.ExecuteSucceeds | identity/app.js:220-235 | Ok iff every input's user was loaded; then one entry per input with its key and its user's final state |
| IdentityApp.ExecuteFailsAtFirstUnknownUser | identity/app.js:220-235 | an Err is UnknownAccount, at the first input whose user was not loaded |
| IdentityApp.DistinctKeysExecution | identity/app.js:220-235 | with distinct keys, each output user holds exactly its own input's name and e-mail |
| IdentityApp.DuplicateInputsShareUser | identity/app.js:229-231 | two inputs for one user both apply, and the same final user is pushed twice |
| IdentityApp.SingleInputExecution | identity/app.js:220-235 | no validation and no sequence: one input applies iff its user exists, and applies again unchanged after it was applied |
| IdentityApp.StoredAfterExecute | identity/app.js:144-150 | storing executeTx's output sets every input's key to its user's final encoding and leaves all other keys as they were |
| IdentityApp.AutoDapp.SetOption | identity/app.js:21-41 | "register" writes the given user at the seed-derived key, appending one write; it throws on an unparsable value or empty seed; other keys only log |
| IdentityApp.AutoDapp.CheckTx | identity/app.js:64-82 | a decode failure gives EncodingError with the error text; otherwise OK iff the verdict is Pass, else the verdict's response; the store is not touched |
| IdentityApp.AutoDapp.AppendTx | identity/app.js:43-62 | a decode failure or execution failure leaves the store unchanged and reports it; success writes exactly the executed users in order and answers OK |
| IdentityApp.AutoDapp.LoadUsers | identity/app.js:118-142 | the map holds exactly the requested keys with non-empty stored bytes, each decoded |
| IdentityApp.AutoDapp.StoreUsers | identity/app.js:144-150 | one write per user, in list order, and the store equals the old store with those writes applied |
| IdentityApp.RegisterApplyReplay | identity/helper.js:70-72 | registering seed "1" as alex, then an update from that key is applied with OK and stored; with no sequence, the same transaction replayed is accepted again |

## Left out

- `info`, `commit` and `query` are left out. `info` returns a constant version string and never touches the store. `commit` relays the store's commit hash. `query` reads one record, decodes it and returns it as JSON text. The command-line parsing, the TMSP server and `listen`, the express HTTP endpoints and all `console.log` output are left out too.
- The protobuf codecs (`types.js`), Ed25519, SHA-256, `JSON.parse` and the e-mail regular expression are opaque functions. Their byte-level behaviour is not modelled.
- The store is a single in-memory map. The merkle tree, its hash and the client's network round trips are left out. Asynchronous callbacks, including the `async.map` fan-out, are modelled as sequential calls.
- Stored bytes that fail to decode are not modelled: `decodeDevice` and `decodeUser` are total. In the source the decode throws inside a store callback.
- `DeviceApp.AutoDapp.SetOption` and `IdentityApp.AutoDapp.SetOption`: the log text of a successful option is not modelled, because it depends on JavaScript's number-to-string formatting. A thrown exception is the `Threw` result; the engine's response to it is not modelled.
- Latitude, longitude and temperature are exact `real`s. NaN, infinities and floating-point rounding are not modelled. The sequence is an unbounded `nat`. The protobuf schema that fixes its width and sign is not part of this model, so neither is modelled. With a signed field a negative input sequence could exist, and the source would answer BadNonce for it.
- `DeviceApp.AutoDapp.SetOption`: the source builds the new device without a `sequence` field, so the stored sequence is whatever the protobuf schema gives an unset field. That schema is not part of this model. The model takes an unset sequence to be 0, so it does not tell an unset sequence from 0. If the schema decoded an unset field as null, the test driver's first update, which carries sequence 0, would get BadNonce rather than OK. The OK that `DeviceApp.InitApplyReplay` proves rests on this reading.
- `checkTx` answers with `tmsp.CodeType_OK`, a property that does not exist, so the response object it passes carries no code. How the engine encodes such a response is not part of this model. In both variants it is modelled as code OK, the evident intent.
- `loadDevices` calls `get` on a global `merkleClient`, and `_loadUsers` calls it on `this` inside a plain function. Both are modelled as reads of the application's own store. As written, `this` inside that plain callback is not the application, so `_loadUsers` throws on every identity `appendTx` with at least one input. The OK that `IdentityApp.RegisterApplyReplay` proves for `appendTx` is therefore the intended outcome, not the one the code as written reaches.
- `_addNewUser` in `identity/app.js` is not part of this model: its only call is commented out.
- The loaded map is a plain JavaScript `{}` object, indexed by the key's binary string. A key whose bytes spell an inherited property name (`constructor`, `toString`, `valueOf`, `__proto__`) is therefore found even though nothing was loaded for it. `appendTx` does not check key length, so such an input does reach `executeTx`. The model treats the loaded map as holding exactly the loaded keys. The lines below say what each affected member then misses.
- `DeviceApp.ExecuteTx`: for an inherited-property key the source answers BadNonce, because the built-in's `sequence` is undefined. The model answers UnknownAccount. The lemmas `DeviceApp.ExecuteFailsAtFirstBadInput` and `DeviceApp.SingleInputExecution` inherit this.
- `DeviceApp.AutoDapp.AppendTx`: inherits the `DeviceApp.ExecuteTx` difference for inherited-property keys.
- `IdentityApp.ExecuteTx`: for an inherited-property key the source updates the built-in object and pushes it like a user. The model answers UnknownAccount.
- `IdentityApp.AutoDapp.AppendTx`: with such a key, `_storeUsers` throws at `encode` after writing every earlier user. That partial write is outside the contract's all-or-nothing promise.
