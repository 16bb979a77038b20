# validator-exit-bot, modelled in Dafny

This project models the decision logic of the Lido validator-exit bot. The
bot watches the Validator Exit Bus Oracle for `ExitDataProcessing` events. For
each one, it recovers the report transaction that caused it and decodes the
packed exit-requests payload into validator records. It stores those records
under a digest of the payload. Then, for every stored payload, it does three
things:

- it drops validators the consensus layer reports as exited;
- it collects those that are whitelisted, have a node-operator registry, and
  whose exiting key was reported;
- it sends a single `triggerExits` transaction for them, and only after a
  local check of the call passes.

A main loop drives the cycles over a window of finalized blocks. The scripts
that build exit requests appear in the model too: they join consensus-layer
indexes with the Keys API, then sort and pack the result into the same
64-byte record format.

Modules, leaves first:

- `Wrappers`: `Option` and `Result`.
- `BigEndian`: bytes and `int.from_bytes` / `to_bytes`.
- `Hex`: `bytes.hex()` and `HexBytes`.
- `Types`: `Key` and the Keys API key.
- `ExitDataDecoder`: the 64-byte record codec.
- `EncodeExitRequests`: the sorted VEB encoder.
- `ValidatorExitBusOracle`: the name-filtered call decoders and the `triggerExits` call.
- `ClClient`: the exited-status predicate and the index-to-pubkey map.
- `ExitRequestBuilder`: the CL/Keys API join.
- `Transaction`: `check`, `send` gating and fees, gas cap, receipt wait.
- `TriggerExitBot`: the bot state, storing, the check pass, the trigger call and the event loop.
- `MainLoop`: the scan window and `last_processed_block`.

Every external service is a function-valued field of a configuration record:

- the digest;
- transaction and receipt reads;
- the ABI decoder;
- the beacon-node lookup;
- the module whitelist and the set of modules with a registry;
- the key-reported query;
- the account;
- the per-request fee;
- the local call check.

The bot's state is a record of three maps plus the insertion order of the
keys. That order is the order in which Python iterates
`list(validators_map.keys())`. A step that raises in the source returns the
exception together with the state as it stood at that point and the actions
it had already issued. The Python object keeps the mutations made before an
exception, and the model keeps them too; a transaction sent before an
exception stays sent.

The central invariant is `TriggerExitBot.Wf`:

- the three maps share their keys, and `order` lists each key once;
- every key is the digest of its stored bytes;
- every stored validator is exactly the record its `index` selects from those bytes.

`CycleUnderWf` and `MainLoop.RunPreservesWf` show that every cycle keeps
`Wf`, failed cycles included. Under `Wf`, every exit the bot asks for is for
a record of the payload it sends, and that record is reported, whitelisted,
has a registry and has not exited (`ActionsSafe`). A send always directly
follows a passing check of the same call and value (`SentOnlyAfterCheck`).

Where the written description of the system and the code disagree, the model
follows the code:

- A record is 64 bytes: a 16-byte metadata word and a 48-byte public key. The
  decoder's doc comment mentions 69 bytes with 5 bytes of padding; the
  constant in the code is 64.
- A trailing partial record is ignored, not rejected, because the count is
  `len // 64`.
- A missing transaction or receipt, or input that neither decoder accepts,
  raises `ValueError` and ends the cycle. It is not a per-transaction skip.
  The cycle's window is then retried.
- Storing a payload whose key is already present is not a no-op. It replaces
  the stored list with a fresh full decode and keeps the key's position in
  the iteration order.
- The check pass builds one `triggerExits` call for all triggered validators
  of a payload, across operators. It does not build one call per
  (module, operator) group.

## Model

| member | source | states |
|---|---|---|
| BigEndian.FromBE | src/utils/exit_data_decoder.py:53 | the big-endian value of n bytes is below 256^n |
| BigEndian.ToBE | scripts/encode_exit_requests.py:58-64 | `to_bytes(n, 'big')` of a value that fits gives n bytes that read back as the same value, so `FromBE` inverts it |
| BigEndian.FromBEConcat | src/utils/exit_data_decoder.py:53 | the value of a concatenation is the high part shifted by the width of the low part plus the low part |
| BigEndian.SplitAt | src/utils/exit_data_decoder.py:57-63 | dividing a word by 256^(len-k) gives the value of its first k bytes, and the remainder is the value of the rest |
| Hex.ToHex | scripts/encode_exit_requests.py:68 | `bytes.hex()` writes exactly two hex digits per byte |
| Hex.HexToBytes | scripts/encode_exit_requests.py:66 | `HexBytes` of an optionally prefixed even-length hex string yields half as many bytes as there are digits |
| Hex.ToHexHasNoPrefix | scripts/encode_exit_requests.py:68 | hex output never starts with `0x`, and stripping a prefix leaves it unchanged |
| Hex.DigitPairsRoundTrip | scripts/encode_exit_requests.py:66-68 | reading the digit pairs of `bytes.hex()` back gives the original bytes |
| Hex.HexRoundTrip | scripts/encode_exit_requests.py:66-68 | `HexBytes(b.hex()) == b` for every byte string |
| ExitDataDecoder.CalculateRequestsCount | src/utils/exit_data_decoder.py:112-122 | the count is the number of whole 64-byte records: count·64 ≤ len < (count+1)·64, so a partial tail is ignored |
| ExitDataDecoder.MetadataFields | src/utils/exit_data_decoder.py:50-63 | masking and shifting the 16-byte big-endian word yields exactly the big-endian values of bytes 8..16 (valIndex), 3..8 (nodeOpId) and 0..3 (moduleId) |
| ExitDataDecoder.UnpackExitRequest | src/utils/exit_data_decoder.py:39-75 | succeeds exactly when the index is a whole record's position, and otherwise fails with the index and the count; the result equals the byte-slice reading of the record, has a 48-byte pubkey taken from offset 64·i+16, and has valIndex < 2^64, nodeOpId < 2^40, moduleId < 2^24 |
| ExitDataDecoder.DecodeFrom | src/utils/exit_data_decoder.py:99-107 | the loop never takes its `except` branch: it returns one record per remaining index, each equal to what `unpack_exit_request` gives at that index |
| ExitDataDecoder.DecodeAllValidators | src/utils/exit_data_decoder.py:78-109 | never fails; returns `len // 64` records in payload order, record i being the byte-slice reading of record i with `index == i`; empty input gives `[]` |
| ExitDataDecoder.FixtureFirstRecord | tests/test_exit_data_decoding.py:41-49 | a payload starting with the fixture's first record decodes at index 0 to moduleId 1, nodeOpId 38, valIndex 1201962 and the listed pubkey |
| ExitDataDecoder.AsWrittenAgreesOnNaturals | src/utils/exit_data_decoder.py:39-75 | for every non-negative index the code as written and the corrected range check give the same result |
| ExitDataDecoder.NegativeIndexAccepted | src/utils/exit_data_decoder.py:40-43 | the as-written guard accepts index -1 on one zero record and returns an empty pubkey, which the corrected decoder rejects |
| EncodeExitRequests.Insert | scripts/encode_exit_requests.py:20 | inserting into a sorted list keeps it sorted and adds exactly one copy of the element |
| EncodeExitRequests.SortRequests | scripts/encode_exit_requests.py:18-20 | the result is sorted by (module_id, no_id, validator_index) and is a permutation of the input |
| EncodeExitRequests.InsertStable | scripts/encode_exit_requests.py:20 | insertion places an element before every element with an equal sort tuple, as consing it would |
| EncodeExitRequests.SortStable | scripts/encode_exit_requests.py:20 | for every sort tuple, the requests with that tuple keep their input order (Python's `sorted` is stable) |
| EncodeExitRequests.NewValidatorExitData | scripts/encode_exit_requests.py:18-20 | the constructor stores a sorted, stable permutation of its input of the same length |
| EncodeExitRequests.RequestBytes | scripts/encode_exit_requests.py:56-66 | one request contributes 3 + 5 + 8 bytes plus its pubkey bytes |
| EncodeExitRequests.FirstUnencodable | scripts/encode_exit_requests.py:56-66 | when some request cannot be written, this is the first one, and all requests before it can be written |
| EncodeExitRequests.ToVebCalldata | scripts/encode_exit_requests.py:32-68 | succeeds exactly when every field fits its width and every pubkey is hex; the output is hex text without a `0x` prefix whose bytes are the concatenated records; empty input gives `""`; on failure it names the first request that `to_bytes`/`HexBytes` rejects |
| EncodeExitRequests.VebLayout | scripts/encode_exit_requests.py:38-66 | with 48-byte pubkeys the payload is exactly 64·n bytes and request k occupies bytes 64k..64k+64 |
| EncodeExitRequests.CalldataLength | tests/scripts/test_scripts_encode_exit_requests.py:75-78 | the hex output of n requests with 48-byte keys is 128·n characters long |
| EncodeExitRequests.RecordRoundTrip | src/utils/exit_data_decoder.py:50-67 | the 64 bytes the encoder writes for a request read back as that request's module, operator, validator index and pubkey |
| EncodeExitRequests.EncodeDecodeRoundTrip | scripts/encode_exit_requests.py:54-68 | decoding the encoder's output gives back the sorted requests field for field, record k having position k |
| ValidatorExitBusOracle.DecodeNamed | src/blockchain/contracts/validator_exit_bus_oracle.py:37-49 | returns the decoded arguments exactly when the ABI decode succeeds and the function name matches; otherwise, including when decoding raises, `None` |
| ValidatorExitBusOracle.DecodeSubmitReportData | src/blockchain/contracts/validator_exit_bus_oracle.py:31-49 | `Some` exactly for inputs decoding as a call named `submitReportData`, carrying its arguments |
| ValidatorExitBusOracle.DecodeSubmitExitRequestsData | src/blockchain/contracts/validator_exit_bus_oracle.py:51-69 | `Some` exactly for inputs decoding as a call named `submitExitRequestsData`, carrying its arguments |
| ValidatorExitBusOracle.DecodersExclusive | src/blockchain/contracts/validator_exit_bus_oracle.py:38-59 | no input is accepted by both decoders |
| ValidatorExitBusOracle.TriggerExits | src/blockchain/contracts/validator_exit_bus_oracle.py:71-130 | the built `triggerExits` call carries the payload and format as its `exitsData` struct, and passes the index list and the refund recipient through unchanged |
| ClClient.GetValidatorByPubkey | src/utils/cl_client.py:32-48 | a record comes back exactly when the response has a body without `error` and with `data`; every exception and error body gives `None` |
| ClClient.Lower | src/utils/cl_client.py:66 | lower-casing keeps the length and maps each character through ASCII lower-casing |
| ClClient.LowerIdempotent | src/utils/cl_client.py:66 | lower-casing twice is lower-casing once |
| ClClient.IsValidatorExited | src/utils/cl_client.py:50-76 | false whenever the lookup yields `None`; true exactly when the lower-cased status (missing status read as `""`) is one of the four exited states |
| ClClient.StatusCaseInsensitive | src/utils/cl_client.py:66 | two statuses equal up to letter case classify alike |
| ClClient.ExitedStatesAreExited | src/utils/cl_client.py:69-76 | each of `withdrawal_done`, `withdrawal_possible`, `exited_slashed`, `exited_unslashed` is exited |
| ClClient.MixedCaseStatusExited | src/utils/cl_client.py:66-76 | any spelling of an exited state with some letters upper-cased is exited too |
| ClClient.MissingStatusNotExited | src/utils/cl_client.py:66 | a record without a status is not exited |
| ClClient.ActiveStatesNotExited | src/utils/cl_client.py:69-76 | no pending or active state is exited |
| ClClient.ValidatorsByIndexes | src/utils/cl_client.py:12-14 | the map's keys are exactly the indexes in the list, and an index that repeats maps to the pubkey of its last entry |
| ExitRequestBuilder.FirstMatch | scripts/exit_request.py:19-32 | finds the first key whose pubkey equals the given text exactly, or reports that none does |
| ExitRequestBuilder.JoinOne | scripts/exit_request.py:13-32 | an index missing from the CL map fails with "not found in CL", a CL pubkey with no key fails with "not found in KAPI", and otherwise the request copies the index and the first matching key's module, operator, pubkey and key index |
| ExitRequestBuilder.BuildExitRequest | scripts/exit_request.py:5-34 | succeeds exactly when every index joins; then there is one request per index, in input order; otherwise it fails with the error of the first index that does not join and returns no partial result (the copy in `utils/exit_request.py` runs the same loop) |
| ExitRequestBuilder.JoinedRequestsComeFromInputs | scripts/exit_request.py:13-30 | on success, each request's validator index is its input index, its pubkey is the CL pubkey, and its module, operator and key index come from the first key with that pubkey |
| ExitRequestBuilder.MissingIndexFails | scripts/exit_request.py:14-15 | an index absent from the CL map makes the build fail, with that index's error when every earlier index joins |
| Transaction.CallParamsFor | src/blockchain/web3_extentions/transaction.py:25-27 | a value is attached exactly when it is positive |
| Transaction.Check | src/blockchain/web3_extentions/transaction.py:22-34 | true exactly when the local call, with the value attached only when positive, does not revert |
| Transaction.PriorityFee | src/blockchain/web3_extentions/transaction.py:149-160 | the fee never exceeds the maximum; it lies in [min, max] whenever min ≤ max; it is the reward itself when the reward is in range |
| Transaction.EstimateGas | src/blockchain/web3_extentions/transaction.py:91-122 | the gas limit never exceeds the cap, a failed estimate gives exactly the cap, and an inflated estimate within the cap is used as is |
| Transaction.SendAndWait | src/blockchain/web3_extentions/transaction.py:124-147 | a failed broadcast returns false without waiting; otherwise the wait is (timeout_in_blocks + 1)·slot time, and the result is whether the receipt arrived within it |
| Transaction.Send | src/blockchain/web3_extentions/transaction.py:36-89 | with no account, or in dry-run mode, nothing is built and the result is true; otherwise the transaction is from the account and carries priority = clamped fee, maxFeePerGas = 2·baseFee + priority, gas = the capped estimate, the chain's nonce and the value only when positive; it is broadcast and waited for with a timeout of (blocks + 1)·slot time, and the result is whether it was found in time |
| Transaction.MaxFeeCoversPriority | src/blockchain/web3_extentions/transaction.py:66-67 | with a non-negative base fee, maxFeePerGas ≥ maxPriorityFeePerGas |
| Transaction.SendSkippedExactly | src/blockchain/web3_extentions/transaction.py:42-50 | the transaction is skipped exactly when there is no account or dry-run is on, and a skipped send reports success |
| TriggerExitBot.DecodeTransactionInput | src/trigger_exit_bot.py:55-77 | returns the call's name and arguments exactly when the input decodes as `submitReportData` or `submitExitRequestsData`; otherwise `(None, None)` |
| TriggerExitBot.DecodeOrderIrrelevant | src/trigger_exit_bot.py:64-72 | trying the two decoders in the other order gives the same result |
| TriggerExitBot.Submission | src/trigger_exit_bot.py:164-166 | the payload and format come from the `data` struct of a report call, or the `request` struct otherwise; an absent payload is empty and an absent format is 0 |
| TriggerExitBot.Store | src/trigger_exit_bot.py:177-183 | the digest key maps to the full decode, with record i unpacked at index i, to the format and to the raw bytes; no other key changes; the key joins the iteration order only when it is new |
| TriggerExitBot.StoreIdempotent | src/trigger_exit_bot.py:215-221 | storing the same payload twice leaves the same state as storing it once |
| TriggerExitBot.GetValidatorsForData | src/trigger_exit_bot.py:240-251 | returns the list stored under the payload's digest, or `None` when the digest is not a key |
| TriggerExitBot.GetAfterStore | src/trigger_exit_bot.py:240-251 | right after a payload is stored, looking it up gives its full decode |
| TriggerExitBot.Classify | src/trigger_exit_bot.py:303-349 | each validator gets exactly one outcome, decided in this order: exited → removed, else not whitelisted, else no registry, else reported → triggered, else not reported |
| TriggerExitBot.Select | src/trigger_exit_bot.py:286-349 | the reference filter: the members are exactly the validators of the list with the given outcome |
| TriggerExitBot.Kept | src/trigger_exit_bot.py:351-355 | the reference for the stored list after a pass: the members are exactly the validators that have not exited |
| TriggerExitBot.SelectSnoc | src/trigger_exit_bot.py:286-349 | filtering a list with one element appended is filtering the list, then appending that element when it has the outcome |
| TriggerExitBot.CheckPass | src/trigger_exit_bot.py:283-349 | the loop's trigger list is the triggered validators and its remove list is the exited validators, both in list order |
| TriggerExitBot.WithoutAll | src/trigger_exit_bot.py:353-355 | the comprehension keeps exactly the list members that are not in the removed list, and never lengthens the list |
| TriggerExitBot.WithoutAllNothingRemoved | src/trigger_exit_bot.py:353-355 | when no member is in the removed list, the list comes back unchanged |
| TriggerExitBot.WithoutAllAppend | src/trigger_exit_bot.py:353-355 | filtering a concatenation is the concatenation of the filtered parts, so the survivors keep their order |
| TriggerExitBot.RemovalKeepsNonExited | src/trigger_exit_bot.py:351-355 | removing by equality with the exited list keeps exactly the non-exited validators, in their relative order |
| TriggerExitBot.KeptNoneExited | src/trigger_exit_bot.py:352 | when nothing is removed, the list already has no exited validator |
| TriggerExitBot.StoredListIsKept | src/trigger_exit_bot.py:351-360 | the stored list after the pass, rewritten only when something was removed, equals the non-exited validators in order |
| TriggerExitBot.Indexes | src/trigger_exit_bot.py:391 | the exit-data indexes are the validators' `index` fields, in order |
| TriggerExitBot.TriggerExitsTransaction | src/trigger_exit_bot.py:368-447 | fails exactly when the raw bytes are missing; otherwise it checks one `triggerExits` call that carries the payload, the format, the triggered indexes in order and the account (or the zero address), with value fee·count; it sends the same call, with timeout 10 and the same value, exactly when the check passes |
| TriggerExitBot.CheckAndTriggerExits | src/trigger_exit_bot.py:253-366 | a missing or empty list or a missing format is a no-op; otherwise the stored list becomes the non-exited validators, nothing else in the state changes, and the trigger call happens once if and only if some validator is triggered; in the model the only exception is missing raw bytes for the key, raised before any action |
| TriggerExitBot.TriggeredNotRemoved | src/trigger_exit_bot.py:303-343 | no validator is both triggered and removed, and every triggered validator stays stored |
| TriggerExitBot.KeptIdempotent | src/trigger_exit_bot.py:351-355 | a second pass removes nothing more |
| TriggerExitBot.CheckAll | src/trigger_exit_bot.py:157-158 | only stored lists change; on success every checked key holds its non-exited validators; in the model the only exception is missing raw bytes for a checked key |
| TriggerExitBot.CheckAllAppend | src/trigger_exit_bot.py:157-158 | checking keys a then b: an exception in a ends the loop there; otherwise b runs from the state a left, and the actions issued for a come first and stay issued even if b raises |
| TriggerExitBot.InitialWf | src/trigger_exit_bot.py:16-27 | the freshly constructed bot satisfies the invariant |
| TriggerExitBot.StorePreservesWf | src/trigger_exit_bot.py:177-183 | storing a payload keeps the invariant |
| TriggerExitBot.StoreRecordsMatch | src/trigger_exit_bot.py:177-183 | after a store, every stored validator, old or new, is the record its index selects from the bytes stored under its key |
| TriggerExitBot.CheckPreservesWf | src/trigger_exit_bot.py:351-360 | the check pass keeps the invariant |
| TriggerExitBot.CheckAndTriggerUnderWf | src/trigger_exit_bot.py:253-366 | under the invariant, the check pass never raises, keeps the invariant, asks only for exits of reported, not-exited records at the indexes it sends, and sends only after a passing check |
| TriggerExitBot.TriggerCallSafe | src/trigger_exit_bot.py:391-421 | every index in the built call selects, from the payload sent, a record classified as triggered |
| TriggerExitBot.TriggerSentAfterCheck | src/trigger_exit_bot.py:423-436 | a send directly follows a passing check of the same call and value |
| TriggerExitBot.TriggerActionsShareCall | src/trigger_exit_bot.py:416-436 | the check and the send carry the same call, so both are safe when the call is |
| TriggerExitBot.TriggerActionsSafe | src/trigger_exit_bot.py:385-436 | the trigger call succeeds, is safe, and sends only after its check when the raw bytes are present and the list matches them |
| TriggerExitBot.CheckAllUnderWf | src/trigger_exit_bot.py:157-158 | under the invariant, checking every key never raises, keeps the invariant, and its actions are safe and sent only after a check |
| TriggerExitBot.ProcessEvent | src/trigger_exit_bot.py:109-149 | a missing transaction or receipt raises; a receipt status other than 1 leaves the state alone; undecodable input raises; otherwise the state becomes the store of exactly the payload and format of the decoded call |
| TriggerExitBot.ProcessEvents | src/trigger_exit_bot.py:109-149 | reading events issues no action; the only exceptions are a missing transaction or an undecodable input, and each names the hash of one of the events |
| TriggerExitBot.ProcessEventsCons | src/trigger_exit_bot.py:109-149 | no events leave the state alone; otherwise the first event is handled by `ProcessEvent`, an exception there ends the loop with the state as it was, and the remaining events run from the state it produced |
| TriggerExitBot.ProcessEventsAppend | src/trigger_exit_bot.py:109-149 | processing events a then b: an exception in a ends the loop with what a stored; otherwise b is processed from the state a left |
| TriggerExitBot.ProcessEventsKeysGrow | src/trigger_exit_bot.py:109-149 | the event loop never drops a stored payload, whether or not it raises |
| TriggerExitBot.EventPayloadStored | src/trigger_exit_bot.py:125-149 | an event whose transaction succeeded and that does not raise was decoded, and its payload is stored under its digest |
| TriggerExitBot.ProcessedPayloadStored | src/trigger_exit_bot.py:109-149 | when the loop returns normally, every event whose transaction succeeded was decoded and its payload is stored under its digest |
| TriggerExitBot.TriggerExitsCycle | src/trigger_exit_bot.py:79-160 | an exception from the events is the cycle's result, with no action; otherwise every key stored after the events is checked in insertion order; a raising cycle has issued actions only when raw bytes were missing |
| TriggerExitBot.ProcessSubmission | src/trigger_exit_bot.py:162-238 | afterwards the submitted payload's validators can be looked up by the payload and are its full decode, and its format is recorded under its digest |
| TriggerExitBot.ProcessEventsPreservesWf | src/trigger_exit_bot.py:109-149 | the event loop keeps the invariant, whether or not it raises |
| TriggerExitBot.WfSameDigest | src/trigger_exit_bot.py:29-42 | the invariant depends on the chain only through the key digest |
| TriggerExitBot.CycleUnderWf | src/trigger_exit_bot.py:79-160 | a cycle keeps the invariant whether or not it raises; in the model it raises only while reading events; every action it issues is safe; on success every key stored after the events holds its non-exited validators |
| TriggerExitBot.FailedTransactionSkipped | src/trigger_exit_bot.py:127-133 | an event whose transaction failed is skipped before decoding and changes nothing |
| MainLoop.FromBlock | src/main.py:108-132 | the first run starts at max(0, finalized − LOOKBACK_DAYS·(86400 // SLOT_TIME)): never negative, and at most the finalized block when LOOKBACK_DAYS ≥ 0 (a negative setting puts it above); later runs start right after the last processed block |
| MainLoop.RunCycle | src/main.py:95-174 | with an account configured, a failing balance read is fatal; a finalized block without a number is fatal; otherwise the window ends at the finalized block, the cycle's actions are all those `trigger_exits` issued, and the last processed block advances to it exactly when `trigger_exits` returns normally |
| MainLoop.AdjacentWindows | src/main.py:124-139 | after a successful cycle, the next window starts right after the previous one's end |
| MainLoop.FailedCycleRetried | src/main.py:108-174 | a failed cycle leaves the next window as it would have been without it: after an earlier success the next window starts at the same block, before any success it starts LOOKBACK_DAYS before the new finalized block |
| MainLoop.CyclePreservesWf | src/main.py:135-139 | each cycle keeps the bot invariant, issues only safe actions, and in the model fails only while reading events |
| MainLoop.Run | src/main.py:94-176 | the loop runs one cycle per read of the chain, each from the state the previous one left, and stops at the first read that raises or has no finalized number |
| MainLoop.RunWindowsAdjacent | src/main.py:124-139 | across a whole run, each window after a successful cycle starts right after that cycle's end: no gap and no overlap |
| MainLoop.RunPreservesWf | src/main.py:94-176 | from a well-formed state, every cycle of a run, failed ones included, leaves the bot state well-formed, even when the chain's answers change between cycles |

## Left out

- SHA-256 in `_get_data_key` is an arbitrary function from bytes to key (`Env.digest`); SHA-256 itself is not modelled.
- The hex-string branch of `_get_data_key` and `get_validators_for_data` is not modelled: the bot only ever passes bytes. So is the `bytes.fromhex` branch of the raw-bytes store.
- ABI encoding and decoding (`decode_function_input`, `eth_abi`) is an oracle that returns a function name and arguments, or `None` for any exception.
- `to_et_calldata` is left out because it only delegates to `eth_abi.encode`. `from_et_calldata` and `from_veb_calldata` are left out because they only raise `NotImplementedError`.
- Transaction.EstimateGas: the factor 1.3 applied with floating point is not modelled. The inflated estimate is an opaque number, and only the cap and the fallback are stated.
- These are inputs of the model, not operations in it:
  - every RPC and HTTP call: the event fetch, transaction and receipt reads, fee history, pending block, nonce, broadcast, receipt wait, the beacon-node requests and the Keys API;
  - contract bindings: the node-operator registry, the withdrawal vault and the staking router.
- The registry map is built for whitelisted modules only (src/blockchain/web3_extentions/lido_contracts.py:57-64). The model keeps the whitelist and the set of modules with a registry as two independent sets, which covers that case and any other.
- The bot sees the local check of its `triggerExits` call as the `Env.check` oracle. `Transaction.Check` models the helper around that call, but the contract's revert conditions are not visible and are not modelled.
- Transaction signing and building are not modelled. The built transaction is the record of its fee, gas, nonce and value fields.
- Transaction.Send: the metric counters it increments are not modelled.
- TriggerExitBot.TriggerExitsTransaction: the result of `send` is only logged by the bot, so the model records the send but not its outcome.
- `SLOT_TIME` is defined in `src/blockchain/constants.py`, which is not part of this model. It is a positive parameter.
- `LOOKBACK_DAYS`, `MODULES_WHITELIST`, `CONTRACT_GAS_LIMIT`, `DRY_RUN`, the priority-fee bounds and the account come from `src/variables.py`, which is environment parsing. They are parameters, except `CONTRACT_GAS_LIMIT`, whose default of 15 000 000 is a constant.
- Logging, metrics, the value of the balance gauge, the health server and `time.sleep` are left out because they do not affect any decision. The balance read itself is modelled: it sits outside the per-cycle handler (src/main.py:97-101), so when it raises the loop ends (`MainLoop.BalanceReadFailed`).
- A `get_block("finalized")` call that itself raises ends the loop just as a block without a number does. The model folds both into a read whose finalized number is missing.
- ClClient.IsValidatorExited: a `status` field that is present but null makes `.lower()` raise `AttributeError`, which ends the check pass. The model reads a null status as a missing one (`""`).
- ClClient.Lower: Python's `str.lower()` is modelled on ASCII letters only, because beacon-node statuses are ASCII.
- ClClient.ValidatorsByIndexes: `int(val['index'])` parsing is not modelled. The entries arrive with integer indexes.
- `get_validator_index_by_pubkey` and `get_all_validators` are left out as HTTP wrappers. The model starts from the list they return.
- TriggerExitBot.ProcessEvent: exceptions other than the two `ValueError`s the bot raises itself are not modelled; a failing RPC is the oracle returning `None`. Among those left out is a decode failure inside `decode_all_validators`, which the decoder contract shows cannot occur.
- TriggerExitBot.CheckAndTriggerExits: RPC exceptions raised during the check pass are not modelled; the model cannot raise them. They are a failing `is_validator_exiting_key_reported` call (src/trigger_exit_bot.py:335, src/blockchain/contracts/node_operator_registry.py:19-21), a failing `get_withdrawal_request_fee` read (src/trigger_exit_bot.py:402), a failing pending-block, fee-history or nonce read inside `send` (src/blockchain/web3_extentions/transaction.py:52-65), and an exception from the local call other than `ValueError` or `ContractLogicError` (transaction.py:29). In the source each ends `trigger_exits` part-way through the pass. Keys visited earlier keep their filtered lists and sent exits, and src/main.py retries the window. In the model `isReported`, the fee, the check and the chain reads are total oracles, so a check pass fails only on missing raw bytes.
- Hex.HexToBytes: only hex text with an optional `0x`/`0X` prefix and an even number of digits is modelled. Other inputs the `hexbytes` library may accept are treated as not encodable.
- MainLoop.Run: `KeyboardInterrupt` and the loop's unbounded repetition are not modelled. A run is a finite sequence of chain reads. The events in a block range are one function for the whole run, since finalized blocks do not change.

## Findings

| source | as written | input that shows it | evidently intended | confidence | as-written member | corrected member |
|---|---|---|---|---|---|---|
| src/utils/exit_data_decoder.py:40-43 | the range check rejects only `index >= count`, so a negative index reaches Python's negative slicing | 64 zero bytes with index -1: the offset is -64, the metadata slice is `data[-64:-48]` and the pubkey slice `data[-48:0]` is empty, so a record with a 0-byte pubkey is returned | reject every index outside `0 .. count-1`, as the docstring's "out of range" and the 0-based index imply | not executed | ExitDataDecoder.UnpackExitRequestAsWritten, ExitDataDecoder.NegativeIndexAccepted | ExitDataDecoder.UnpackExitRequest |
