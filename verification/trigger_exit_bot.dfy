/** The exit-trigger bot: its state (three maps keyed by a digest of the raw
    exit payload), the storing of decoded report calls, the per-key check
    pass that drops exited validators and triggers exits for reported ones,
    and the event loop that drives both.

    Every outside service is a field of `Env`. A step that raises in the
    source returns the exception together with the state as it was at that
    point and the actions already issued: the source mutates the bot object
    in place, so changes made before the exception stay. */
module TriggerExitBot {
  import opened Wrappers
  import opened BigEndian
  import opened Hex
  import opened ExitDataDecoder
  import opened ValidatorExitBusOracle
  import ClClient

  /** The hex digest `_get_data_key` computes. */
  type DataKey = string

  /** The bot's maps. `order` lists the keys of `validatorsMap` in insertion
      order, the order `list(validators_map.keys())` iterates in. */
  datatype BotState = BotState(
    order: seq<DataKey>,
    validatorsMap: map<DataKey, seq<ExitRequest>>,
    dataFormatMap: map<DataKey, int>,
    dataBytesMap: map<DataKey, seq<byte>>)

  /** The state of a freshly constructed bot. */
  const INITIAL: BotState := BotState([], map[], map[], map[])

  datatype TxData = TxData(input: seq<byte>)
  datatype TxReceipt = TxReceipt(status: int)

  /** An `ExitDataProcessing` log; only its transaction hash is acted on. */
  datatype Event = Event(transactionHash: string)

  /** The outside world as the bot queries it. */
  datatype Env = Env(
    digest: seq<byte> -> DataKey,
    getTransaction: string -> Option<TxData>,
    getReceipt: string -> Option<TxReceipt>,
    decodeCall: CallDecoder,
    clLookup: ClClient.Lookup,
    modulesWhitelist: set<int>,
    registryModules: set<int>,
    isReported: (int, string) -> bool,
    account: Option<string>,
    feePerRequest: nat,
    check: (TriggerExitsCall, int) -> bool)

  /** The exceptions that end a cycle. */
  datatype BotError =
    | MissingTransaction(transactionHash: string)
    | UndecodableInput(transactionHash: string)
    | MissingExitData(key: DataKey)

  /** The calls the bot makes on the transaction helper. */
  datatype Action =
    | Checked(call: TriggerExitsCall, value: int)
    | Sent(call: TriggerExitsCall, timeoutInBlocks: nat, value: int)

  /** The state after a step, the actions it issued (on the chain they stay
      issued even when a later one raises) and the exception it raised, if
      any. */
  datatype Step = Step(state: BotState, actions: seq<Action>, error: Option<BotError>)

  /** The step a call that either returns its actions or raises makes. */
  function StepOf(s: BotState, res: Result<seq<Action>, BotError>): Step {
    match res
    case Success(actions) => Step(s, actions, None)
    case Failure(e) => Step(s, [], Some(e))
  }

  const TRIGGER_TIMEOUT_IN_BLOCKS: nat := 10
  const ZERO_ADDRESS: string := "0x0000000000000000000000000000000000000000"

  // ---------------------------------------------------------------------
  // Recognising the report call

  /** `_decode_transaction_input`: the report decoder first, then the
      exit-requests decoder. */
  function DecodeTransactionInput(decode: CallDecoder, input: seq<byte>): (r: Option<(string, map<string, ExitsStruct>)>)
    ensures r.Some? <==> decode(input).Some?
                         && decode(input).value.fnName in {SUBMIT_REPORT_DATA, SUBMIT_EXIT_REQUESTS_DATA}
    ensures r.Some? ==> r.value == (decode(input).value.fnName, decode(input).value.params)
  {
    match DecodeSubmitReportData(decode, input)
    case Some(params) => Some((SUBMIT_REPORT_DATA, params))
    case None =>
      match DecodeSubmitExitRequestsData(decode, input)
      case Some(params) => Some((SUBMIT_EXIT_REQUESTS_DATA, params))
      case None => None
  }

  /** Trying the exit-requests decoder first gives the same answer, since
      the two decoders never both accept an input. */
  lemma DecodeOrderIrrelevant(decode: CallDecoder, input: seq<byte>)
    ensures DecodeTransactionInput(decode, input) ==
      match DecodeSubmitExitRequestsData(decode, input)
      case Some(params) => Some((SUBMIT_EXIT_REQUESTS_DATA, params))
      case None =>
        match DecodeSubmitReportData(decode, input)
        case Some(params) => Some((SUBMIT_REPORT_DATA, params))
        case None => None
  {
    DecodersExclusive(decode, input);
  }

  // ---------------------------------------------------------------------
  // Storing a submission

  /** `dict.get(name, {})` on the decoded arguments. */
  function StructArg(params: map<string, ExitsStruct>, name: string): ExitsStruct {
    if name in params then params[name] else ExitsStruct(None, None)
  }

  /** The payload and format a decoded call carries: `data.data` and
      `data.dataFormat` for a report, `request.data` and
      `request.dataFormat` for an exit-requests submission; an absent
      payload is empty and an absent format is 0. */
  function Submission(fnName: string, params: map<string, ExitsStruct>): (r: (seq<byte>, int))
    ensures var s := StructArg(params, if fnName == SUBMIT_REPORT_DATA then "data" else "request");
      && (s.data.Some? ==> r.0 == s.data.value) && (s.data.None? ==> r.0 == [])
      && (s.dataFormat.Some? ==> r.1 == s.dataFormat.value) && (s.dataFormat.None? ==> r.1 == 0)
  {
    var s := StructArg(params, if fnName == SUBMIT_REPORT_DATA then "data" else "request");
    (s.data.GetOr([]), s.dataFormat.GetOr(0))
  }

  /** The common tail of `_process_submit_report_data` and
      `_process_submit_exit_requests_data`: the decoded records, the format
      and the raw bytes all go under the payload's digest; a repeated
      payload replaces its entry with a fresh decode. */
  function Store(s: BotState, env: Env, data: seq<byte>, format: int): (r: BotState)
    ensures var key := env.digest(data);
      && key in r.validatorsMap && key in r.dataFormatMap && key in r.dataBytesMap
      && |r.validatorsMap[key]| == |data| / PACKED_REQUEST_LENGTH
      && (forall i :: 0 <= i < |r.validatorsMap[key]| ==> UnpackExitRequest(data, i) == Success(r.validatorsMap[key][i]))
      && (forall i :: 0 <= i < |r.validatorsMap[key]| ==> r.validatorsMap[key][i].index == i)
      && r.dataFormatMap[key] == format
      && r.dataBytesMap[key] == data
    ensures var key := env.digest(data);
      && r.validatorsMap.Keys == s.validatorsMap.Keys + {key}
      && r.dataFormatMap.Keys == s.dataFormatMap.Keys + {key}
      && r.dataBytesMap.Keys == s.dataBytesMap.Keys + {key}
      && (forall k :: k in s.validatorsMap && k != key ==> r.validatorsMap[k] == s.validatorsMap[k])
      && (forall k :: k in s.dataFormatMap && k != key ==> r.dataFormatMap[k] == s.dataFormatMap[k])
      && (forall k :: k in s.dataBytesMap && k != key ==> r.dataBytesMap[k] == s.dataBytesMap[k])
    ensures var key := env.digest(data);
      r.order == if key in s.validatorsMap then s.order else s.order + [key]
  {
    var key := env.digest(data);
    var records := DecodeAllValidators(data).value;
    forall i | 0 <= i < |records| ensures UnpackExitRequest(data, i) == Success(records[i]) {
      UnpackExitRequestIsSliced(data, i);
    }
    BotState(
      if key in s.validatorsMap then s.order else s.order + [key],
      s.validatorsMap[key := records],
      s.dataFormatMap[key := format],
      s.dataBytesMap[key := data])
  }

  lemma UnpackExitRequestIsSliced(data: seq<byte>, i: nat)
    requires i < |data| / PACKED_REQUEST_LENGTH
    ensures UnpackExitRequest(data, i) == Success(DecodeAllValidators(data).value[i])
  {
    var n := |data| / PACKED_REQUEST_LENGTH;
    MulMonotone(i + 1, n, PACKED_REQUEST_LENGTH);
  }

  /** Storing the same payload twice is the same as storing it once. */
  lemma StoreIdempotent(s: BotState, env: Env, data: seq<byte>, format: int)
    ensures Store(Store(s, env, data, format), env, data, format) == Store(s, env, data, format)
  {
  }

  /** `get_validators_for_data`: the stored list of the payload's key. */
  function GetValidatorsForData(s: BotState, env: Env, data: seq<byte>): (r: Option<seq<ExitRequest>>)
    ensures r.Some? <==> env.digest(data) in s.validatorsMap
    ensures r.Some? ==> r.value == s.validatorsMap[env.digest(data)]
  {
    var key := env.digest(data);
    if key in s.validatorsMap then Some(s.validatorsMap[key]) else None
  }

  /** After storing a payload, looking it up gives its full decode. */
  lemma GetAfterStore(s: BotState, env: Env, data: seq<byte>, format: int)
    ensures GetValidatorsForData(Store(s, env, data, format), env, data) == Some(DecodeAllValidators(data).value)
  {
  }

  /** `_process_submit_report_data` / `_process_submit_exit_requests_data`:
      afterwards the submitted payload's validators can be looked up by the
      payload, and they are its full decode. */
  function ProcessSubmission(s: BotState, env: Env, fnName: string, params: map<string, ExitsStruct>): (r: BotState)
    ensures var data := Submission(fnName, params).0;
      GetValidatorsForData(r, env, data) == Some(DecodeAllValidators(data).value)
    ensures var key := env.digest(Submission(fnName, params).0);
      key in r.dataFormatMap && r.dataFormatMap[key] == Submission(fnName, params).1
  {
    var (data, format) := Submission(fnName, params);
    GetAfterStore(s, env, data, format);
    Store(s, env, data, format)
  }

  // ---------------------------------------------------------------------
  // Classifying a validator

  /** The CL status lookup, made with the pubkey as lower-case hex. */
  predicate IsExited(env: Env, v: ExitRequest) {
    ClClient.IsValidatorExited(env.clLookup, ToHex(v.pubkey))
  }

  /** What the check pass does with one validator. */
  datatype Outcome = Removed | NotWhitelisted | NoRegistry | Triggered | NotReported

  /** The filters of `_check_and_trigger_exits`, tested in this order. */
  function Classify(env: Env, v: ExitRequest): (o: Outcome)
    ensures o == Removed <==> IsExited(env, v)
    ensures o == NotWhitelisted <==> !IsExited(env, v) && v.moduleId !in env.modulesWhitelist
    ensures o == NoRegistry <==>
      (!IsExited(env, v) && v.moduleId in env.modulesWhitelist && v.moduleId !in env.registryModules)
    ensures o == Triggered <==>
      (&& !IsExited(env, v)
       && v.moduleId in env.modulesWhitelist
       && v.moduleId in env.registryModules
       && env.isReported(v.moduleId, ToHex(v.pubkey)))
  {
    if IsExited(env, v) then Removed
    else if v.moduleId !in env.modulesWhitelist then NotWhitelisted
    else if v.moduleId !in env.registryModules then NoRegistry
    else if env.isReported(v.moduleId, ToHex(v.pubkey)) then Triggered
    else NotReported
  }

  /** The validators of `vs` with outcome `o`, in order (a reference
      filter). */
  function Select(env: Env, vs: seq<ExitRequest>, o: Outcome): (r: seq<ExitRequest>)
    ensures forall v :: v in r <==> v in vs && Classify(env, v) == o
    ensures |r| <= |vs|
  {
    if |vs| == 0 then []
    else
      assert forall v :: v in vs <==> v == vs[0] || v in vs[1..];
      (if Classify(env, vs[0]) == o then [vs[0]] else []) + Select(env, vs[1..], o)
  }

  /** The validators of `vs` that have not exited, in order. */
  function Kept(env: Env, vs: seq<ExitRequest>): (r: seq<ExitRequest>)
    ensures forall v :: v in r <==> v in vs && !IsExited(env, v)
    ensures |r| <= |vs|
  {
    if |vs| == 0 then []
    else
      assert forall v :: v in vs <==> v == vs[0] || v in vs[1..];
      (if IsExited(env, vs[0]) then [] else [vs[0]]) + Kept(env, vs[1..])
  }

  lemma {:induction false} SelectSnoc(env: Env, vs: seq<ExitRequest>, x: ExitRequest, o: Outcome)
    ensures Select(env, vs + [x], o) == Select(env, vs, o) + (if Classify(env, x) == o then [x] else [])
  {
    var w := vs + [x];
    if |vs| > 0 {
      var t := vs[1..];
      assert w[0] == vs[0];
      assert w[1..] == t + [x];
      SelectSnoc(env, t, x, o);
      var h := if Classify(env, vs[0]) == o then [vs[0]] else [];
      assert Select(env, w, o) == h + Select(env, t + [x], o);
      assert Select(env, vs, o) == h + Select(env, t, o);
    } else {
      assert w == [x];
      assert w[1..] == [];
    }
  }

  /** The two lists the loop of `_check_and_trigger_exits` builds. */
  datatype Pass = Pass(toTrigger: seq<ExitRequest>, toRemove: seq<ExitRequest>)

  /** The loop itself: one pass, appending to one list or the other. */
  function CheckPass(env: Env, vs: seq<ExitRequest>): (p: Pass)
    ensures p.toTrigger == Select(env, vs, Triggered)
    ensures p.toRemove == Select(env, vs, Removed)
  {
    if |vs| == 0 then Pass([], [])
    else
      var init := vs[..|vs| - 1];
      var v := vs[|vs| - 1];
      var p := CheckPass(env, init);
      assert vs == init + [v];
      SelectSnoc(env, init, v, Triggered);
      SelectSnoc(env, init, v, Removed);
      match Classify(env, v)
      case Removed => Pass(p.toTrigger, p.toRemove + [v])
      case Triggered => Pass(p.toTrigger + [v], p.toRemove)
      case _ => p
  }

  /** `[v for v in vs if v not in removed]`. */
  function WithoutAll(vs: seq<ExitRequest>, removed: seq<ExitRequest>): (r: seq<ExitRequest>)
    ensures forall v :: v in r <==> v in vs && v !in removed
    ensures |r| <= |vs|
  {
    if |vs| == 0 then []
    else
      assert forall v :: v in vs <==> v == vs[0] || v in vs[1..];
      (if vs[0] in removed then [] else [vs[0]]) + WithoutAll(vs[1..], removed)
  }

  /** When nothing in the list was removed, the comprehension returns the
      list unchanged. */
  lemma {:induction false} WithoutAllNothingRemoved(vs: seq<ExitRequest>, removed: seq<ExitRequest>)
    requires forall i :: 0 <= i < |vs| ==> vs[i] !in removed
    ensures WithoutAll(vs, removed) == vs
  {
    if |vs| > 0 {
      assert forall i :: 0 <= i < |vs[1..]| ==> vs[1..][i] == vs[i + 1];
      WithoutAllNothingRemoved(vs[1..], removed);
      assert [vs[0]] + vs[1..] == vs;
    }
  }

  /** Filtering a concatenation filters each part: the comprehension keeps
      the surviving members in their original order. */
  lemma {:induction false} WithoutAllAppend(a: seq<ExitRequest>, b: seq<ExitRequest>, removed: seq<ExitRequest>)
    ensures WithoutAll(a + b, removed) == WithoutAll(a, removed) + WithoutAll(b, removed)
  {
    if |a| == 0 {
      assert a + b == b;
    } else {
      assert (a + b)[0] == a[0];
      assert (a + b)[1..] == a[1..] + b;
      WithoutAllAppend(a[1..], b, removed);
    }
  }

  lemma {:induction false} WithoutAllIsKept(env: Env, vs: seq<ExitRequest>, removed: seq<ExitRequest>)
    requires forall i :: 0 <= i < |vs| ==> (vs[i] in removed <==> IsExited(env, vs[i]))
    ensures WithoutAll(vs, removed) == Kept(env, vs)
  {
    if |vs| > 0 {
      assert forall i :: 0 <= i < |vs[1..]| ==> vs[1..][i] == vs[i + 1];
      WithoutAllIsKept(env, vs[1..], removed);
    }
  }

  /** Removing by equality with the removed list keeps exactly the
      validators that have not exited, in their order: equal records always
      share an outcome. */
  lemma RemovalKeepsNonExited(env: Env, vs: seq<ExitRequest>)
    ensures WithoutAll(vs, Select(env, vs, Removed)) == Kept(env, vs)
  {
    WithoutAllIsKept(env, vs, Select(env, vs, Removed));
  }

  lemma KeptNoneExited(env: Env, vs: seq<ExitRequest>)
    requires Select(env, vs, Removed) == []
    ensures Kept(env, vs) == vs
  {
    forall i | 0 <= i < |vs| ensures !IsExited(env, vs[i]) {
      assert vs[i] in vs;
    }
    KeptAllLive(env, vs);
  }

  lemma {:induction false} KeptAllLive(env: Env, vs: seq<ExitRequest>)
    requires forall i :: 0 <= i < |vs| ==> !IsExited(env, vs[i])
    ensures Kept(env, vs) == vs
  {
    if |vs| > 0 {
      assert forall i :: 0 <= i < |vs[1..]| ==> vs[1..][i] == vs[i + 1];
      KeptAllLive(env, vs[1..]);
      assert [vs[0]] + vs[1..] == vs;
    }
  }

  /** The list the check pass leaves behind, rewritten only when something
      was removed, is the non-exited validators in order. */
  lemma StoredListIsKept(env: Env, vs: seq<ExitRequest>)
    ensures var removed := CheckPass(env, vs).toRemove;
      (if |removed| > 0 then WithoutAll(vs, removed) else vs) == Kept(env, vs)
  {
    RemovalKeepsNonExited(env, vs);
    if |CheckPass(env, vs).toRemove| == 0 {
      KeptNoneExited(env, vs);
    }
  }

  /** The exit-data indexes of the given validators, in order. */
  function Indexes(vs: seq<ExitRequest>): (r: seq<int>)
    ensures |r| == |vs|
    ensures forall i :: 0 <= i < |vs| ==> r[i] == vs[i].index
  {
    if |vs| == 0 then [] else [vs[0].index] + Indexes(vs[1..])
  }

  // ---------------------------------------------------------------------
  // The check pass and the trigger call

  /** `_trigger_exits_transaction`: one `triggerExits` call for all the
      given validators, sent only after the local check passes. */
  function TriggerExitsTransaction(s: BotState, env: Env, key: DataKey, format: int, toTrigger: seq<ExitRequest>): (r: Result<seq<Action>, BotError>)
    ensures r.Failure? <==> key !in s.dataBytesMap
    ensures r.Failure? ==> r.error == MissingExitData(key)
    ensures r.Success? ==>
      var value := env.feePerRequest * |toTrigger|;
      && 1 <= |r.value| <= 2
      && r.value[0].Checked?
      && var call := r.value[0].call;
      && r.value[0].value == value
      && call.exitsData == ExitsData(s.dataBytesMap[key], format)
      && |call.exitDataIndexes| == |toTrigger|
      && (forall i :: 0 <= i < |toTrigger| ==> call.exitDataIndexes[i] == toTrigger[i].index)
      && call.refundRecipient == (if env.account.Some? then env.account.value else ZERO_ADDRESS)
      && (|r.value| == 2 <==> env.check(call, value))
      && (|r.value| == 2 ==> r.value[1] == Sent(call, TRIGGER_TIMEOUT_IN_BLOCKS, value))
  {
    if key !in s.dataBytesMap then Failure(MissingExitData(key))
    else
      var recipient := if env.account.Some? then env.account.value else ZERO_ADDRESS;
      var value := env.feePerRequest * |toTrigger|;
      var call := TriggerExits(s.dataBytesMap[key], format, Indexes(toTrigger), recipient);
      if !env.check(call, value) then Success([Checked(call, value)])
      else Success([Checked(call, value), Sent(call, TRIGGER_TIMEOUT_IN_BLOCKS, value)])
  }

  /** Whether the check pass has anything to look at for `key`. */
  predicate HasWork(s: BotState, key: DataKey) {
    key in s.validatorsMap && |s.validatorsMap[key]| > 0 && key in s.dataFormatMap
  }

  /** `_check_and_trigger_exits`. */
  function CheckAndTriggerExits(s: BotState, env: Env, key: DataKey): (r: Step)
    ensures !HasWork(s, key) ==> r == Step(s, [], None)
    ensures HasWork(s, key) ==>
      && r.state == s.(validatorsMap := s.validatorsMap[key := Kept(env, s.validatorsMap[key])])
      && var toTrigger := Select(env, s.validatorsMap[key], Triggered);
      && (|toTrigger| == 0 ==> r.actions == [] && r.error.None?)
      && (|toTrigger| > 0 ==> r == StepOf(r.state, TriggerExitsTransaction(r.state, env, key, s.dataFormatMap[key], toTrigger)))
    ensures r.state.order == s.order && r.state.dataFormatMap == s.dataFormatMap && r.state.dataBytesMap == s.dataBytesMap
    ensures r.state.validatorsMap.Keys == s.validatorsMap.Keys
    ensures forall k :: k in s.validatorsMap && k != key ==> r.state.validatorsMap[k] == s.validatorsMap[k]
    ensures r.error.Some? ==> r.error.value == MissingExitData(key) && key !in s.dataBytesMap && r.actions == []
  {
    if !HasWork(s, key) then Step(s, [], None)
    else
      var vs := s.validatorsMap[key];
      var format := s.dataFormatMap[key];
      var pass := CheckPass(env, vs);
      var s' := if |pass.toRemove| > 0 then s.(validatorsMap := s.validatorsMap[key := WithoutAll(vs, pass.toRemove)]) else s;
      StoredListIsKept(env, vs);
      assert s.validatorsMap[key := vs] == s.validatorsMap;
      if |pass.toTrigger| > 0 then StepOf(s', TriggerExitsTransaction(s', env, key, format, pass.toTrigger))
      else Step(s', [], None)
  }

  /** A validator is never both triggered and removed, and every triggered
      validator stays in the stored list. */
  lemma TriggeredNotRemoved(env: Env, vs: seq<ExitRequest>)
    ensures forall v :: v in Select(env, vs, Triggered) ==> v !in Select(env, vs, Removed)
    ensures forall v :: v in Select(env, vs, Triggered) ==> v in Kept(env, vs)
  {
  }

  lemma {:induction false} KeptIdempotent(env: Env, vs: seq<ExitRequest>)
    ensures Kept(env, Kept(env, vs)) == Kept(env, vs)
  {
    if |vs| > 0 {
      KeptIdempotent(env, vs[1..]);
      var t := Kept(env, vs[1..]);
      if IsExited(env, vs[0]) {
        assert Kept(env, vs) == [] + t;
        assert [] + t == t;
      } else {
        assert Kept(env, vs) == [vs[0]] + t;
        assert ([vs[0]] + t)[0] == vs[0];
        assert ([vs[0]] + t)[1..] == t;
      }
    }
  }

  /** `list(validators_map.keys())` checked key by key; the first exception
      ends the loop, and the actions issued for earlier keys stay issued.
      Only the stored lists change: each checked key keeps its non-exited
      validators (checking a key twice changes nothing more), and the only
      exception is raw data missing for a checked key. */
  function CheckAll(s: BotState, env: Env, keys: seq<DataKey>): (r: Step)
    ensures r.state.order == s.order
    ensures r.state.dataFormatMap == s.dataFormatMap && r.state.dataBytesMap == s.dataBytesMap
    ensures r.state.validatorsMap.Keys == s.validatorsMap.Keys
    ensures forall k :: k in s.validatorsMap && k !in keys ==> r.state.validatorsMap[k] == s.validatorsMap[k]
    ensures r.error.None? ==>
      forall k :: k in keys && k in s.validatorsMap && k in s.dataFormatMap ==>
        r.state.validatorsMap[k] == Kept(env, s.validatorsMap[k])
    ensures r.error.Some? ==>
      r.error.value.MissingExitData? && r.error.value.key in keys && r.error.value.key !in s.dataBytesMap
    decreases |keys|
  {
    if |keys| == 0 then Step(s, [], None)
    else
      var first := CheckAndTriggerExits(s, env, keys[0]);
      if first.error.Some? then first
      else
        var rest := CheckAll(first.state, env, keys[1..]);
        assert first.state.dataFormatMap == s.dataFormatMap && first.state.order == s.order;
        KeptIdempotent(env, if keys[0] in s.validatorsMap then s.validatorsMap[keys[0]] else []);
        assert forall k :: k in keys <==> k == keys[0] || k in keys[1..];
        Step(rest.state, first.actions + rest.actions, rest.error)
  }

  /** Checking the keys `a` and then `b`: an exception in `a` ends the loop
      there; otherwise `b` is checked from the state `a` left, and the
      actions issued for `a` come first and survive an exception in `b`. */
  lemma {:induction false} CheckAllAppend(s: BotState, env: Env, a: seq<DataKey>, b: seq<DataKey>)
    ensures var ra := CheckAll(s, env, a);
      var rb := CheckAll(ra.state, env, b);
      CheckAll(s, env, a + b) == if ra.error.Some? then ra else Step(rb.state, ra.actions + rb.actions, rb.error)
    decreases |a|
  {
    if |a| == 0 {
      assert a + b == b;
    } else {
      var ab := a + b;
      assert ab[0] == a[0];
      assert ab[1..] == a[1..] + b;
      CheckAllCons(s, env, a);
      CheckAllCons(s, env, ab);
      var first := CheckAndTriggerExits(s, env, a[0]);
      if first.error.None? {
        CheckAllAppend(first.state, env, a[1..], b);
        var ra := CheckAll(first.state, env, a[1..]);
        var rb := CheckAll(ra.state, env, b);
        ChainSteps(first, ra, rb, CheckAll(first.state, env, a[1..] + b));
      }
    }
  }

  /** A step that returned normally, followed by steps `ra` and `rb`: the
      actions concatenate the same way however the three are grouped. */
  lemma ChainSteps(first: Step, ra: Step, rb: Step, tail: Step)
    requires first.error.None?
    requires tail == if ra.error.Some? then ra else Step(rb.state, ra.actions + rb.actions, rb.error)
    ensures var whole := Step(ra.state, first.actions + ra.actions, ra.error);
      Step(tail.state, first.actions + tail.actions, tail.error)
        == if whole.error.Some? then whole else Step(rb.state, whole.actions + rb.actions, rb.error)
  {
    assert first.actions + (ra.actions + rb.actions) == (first.actions + ra.actions) + rb.actions;
  }

  /** The first key is checked, then the rest from the state it left. */
  lemma CheckAllCons(s: BotState, env: Env, keys: seq<DataKey>)
    requires |keys| > 0
    ensures var first := CheckAndTriggerExits(s, env, keys[0]);
      var rest := CheckAll(first.state, env, keys[1..]);
      CheckAll(s, env, keys) == if first.error.Some? then first else Step(rest.state, first.actions + rest.actions, rest.error)
  {
  }

  // ---------------------------------------------------------------------
  // The invariant and what it buys

  /** What every reachable state satisfies: the three maps share their
      keys, `order` lists them once each, every key is the digest of its
      raw bytes, and every stored validator is the record its `index` picks
      out of those bytes. */
  ghost predicate Wf(env: Env, s: BotState) {
    && s.validatorsMap.Keys == s.dataFormatMap.Keys
    && s.validatorsMap.Keys == s.dataBytesMap.Keys
    && (forall k :: k in s.validatorsMap <==> k in s.order)
    && (forall i, j :: 0 <= i < j < |s.order| ==> s.order[i] != s.order[j])
    && (forall k :: k in s.dataBytesMap ==> env.digest(s.dataBytesMap[k]) == k)
    && (forall k, v :: k in s.validatorsMap && v in s.validatorsMap[k] ==>
          UnpackExitRequest(s.dataBytesMap[k], v.index) == Success(v))
  }

  lemma InitialWf(env: Env)
    ensures Wf(env, INITIAL)
  {
  }

  /** The invariant looks at the chain only through the key digest. */
  lemma WfSameDigest(e1: Env, e2: Env, s: BotState)
    requires e1.digest == e2.digest
    requires Wf(e1, s)
    ensures Wf(e2, s)
  {
  }

  lemma StorePreservesWf(env: Env, s: BotState, data: seq<byte>, format: int)
    requires Wf(env, s)
    ensures Wf(env, Store(s, env, data, format))
  {
    StoreRecordsMatch(env, s, data, format);
    StoreKeepsOrder(env, s, data, format);
  }

  lemma StoreKeepsOrder(env: Env, s: BotState, data: seq<byte>, format: int)
    requires forall k :: k in s.validatorsMap <==> k in s.order
    requires forall i, j :: 0 <= i < j < |s.order| ==> s.order[i] != s.order[j]
    ensures var r := Store(s, env, data, format);
      && (forall k :: k in r.validatorsMap <==> k in r.order)
      && (forall i, j :: 0 <= i < j < |r.order| ==> r.order[i] != r.order[j])
  {
    var key := env.digest(data);
    if key !in s.validatorsMap {
      assert key !in s.order;
    }
  }

  lemma StoreRecordsMatch(env: Env, s: BotState, data: seq<byte>, format: int)
    requires forall k, v :: k in s.validatorsMap && v in s.validatorsMap[k] && k in s.dataBytesMap ==>
      UnpackExitRequest(s.dataBytesMap[k], v.index) == Success(v)
    requires s.validatorsMap.Keys <= s.dataBytesMap.Keys
    ensures var r := Store(s, env, data, format);
      forall k, v :: k in r.validatorsMap && v in r.validatorsMap[k] ==>
        UnpackExitRequest(r.dataBytesMap[k], v.index) == Success(v)
  {
    var r := Store(s, env, data, format);
    var key := env.digest(data);
    forall k, v | k in r.validatorsMap && v in r.validatorsMap[k]
      ensures UnpackExitRequest(r.dataBytesMap[k], v.index) == Success(v)
    {
      if k == key {
        var i :| 0 <= i < |r.validatorsMap[key]| && r.validatorsMap[key][i] == v;
      }
    }
  }

  /** Every exit the actions ask for is the record at that index of the
      payload sent, and that record is reported, whitelisted, has a
      registry and has not exited. */
  predicate ActionsSafe(env: Env, actions: seq<Action>) {
    forall j :: 0 <= j < |actions| ==> CallSafe(env, actions[j].call)
  }

  predicate CallSafe(env: Env, call: TriggerExitsCall) {
    forall i :: 0 <= i < |call.exitDataIndexes| ==>
      var rec := UnpackExitRequest(call.exitsData.data, call.exitDataIndexes[i]);
      rec.Success? && Classify(env, rec.value) == Triggered
  }

  /** A send always directly follows a passing check of the same call and
      value. */
  predicate SentOnlyAfterCheck(env: Env, actions: seq<Action>) {
    forall i :: 0 <= i < |actions| && actions[i].Sent? ==>
      && i > 0
      && actions[i - 1] == Checked(actions[i].call, actions[i].value)
      && env.check(actions[i].call, actions[i].value)
  }

  lemma CheckAndTriggerUnderWf(env: Env, s: BotState, key: DataKey)
    requires Wf(env, s)
    ensures var r := CheckAndTriggerExits(s, env, key);
      && r.error.None?
      && Wf(env, r.state)
      && ActionsSafe(env, r.actions)
      && SentOnlyAfterCheck(env, r.actions)
  {
    if HasWork(s, key) {
      CheckPreservesWf(env, s, key);
      var vs := s.validatorsMap[key];
      var toTrigger := Select(env, vs, Triggered);
      if |toTrigger| > 0 {
        var r := CheckAndTriggerExits(s, env, key);
        TriggerActionsSafe(env, r.state, key, s.dataFormatMap[key], vs, toTrigger);
      }
    }
  }

  lemma CheckPreservesWf(env: Env, s: BotState, key: DataKey)
    requires Wf(env, s) && HasWork(s, key)
    ensures Wf(env, CheckAndTriggerExits(s, env, key).state)
  {
    var t := CheckAndTriggerExits(s, env, key).state;
    var vs := s.validatorsMap[key];
    forall k, v | k in t.validatorsMap && v in t.validatorsMap[k]
      ensures UnpackExitRequest(t.dataBytesMap[k], v.index) == Success(v)
    {
      if k == key {
        assert v in vs;
      }
    }
  }

  lemma TriggerActionsSafe(env: Env, t: BotState, key: DataKey, format: int, vs: seq<ExitRequest>, toTrigger: seq<ExitRequest>)
    requires key in t.dataBytesMap
    requires toTrigger == Select(env, vs, Triggered)
    requires forall v :: v in vs ==> UnpackExitRequest(t.dataBytesMap[key], v.index) == Success(v)
    ensures var r := TriggerExitsTransaction(t, env, key, format, toTrigger);
      && r.Success?
      && ActionsSafe(env, r.value)
      && SentOnlyAfterCheck(env, r.value)
  {
    TriggerCallSafe(env, t, key, format, vs, toTrigger);
    TriggerSentAfterCheck(env, t, key, format, toTrigger);
    TriggerActionsShareCall(env, t, key, format, toTrigger);
  }

  lemma TriggerSentAfterCheck(env: Env, t: BotState, key: DataKey, format: int, toTrigger: seq<ExitRequest>)
    requires key in t.dataBytesMap
    ensures var r := TriggerExitsTransaction(t, env, key, format, toTrigger);
      r.Success? && SentOnlyAfterCheck(env, r.value)
  {
  }

  lemma TriggerActionsShareCall(env: Env, t: BotState, key: DataKey, format: int, toTrigger: seq<ExitRequest>)
    requires key in t.dataBytesMap
    requires var r := TriggerExitsTransaction(t, env, key, format, toTrigger);
      r.Success? && CallSafe(env, r.value[0].call)
    ensures var r := TriggerExitsTransaction(t, env, key, format, toTrigger);
      r.Success? && ActionsSafe(env, r.value)
  {
    var acts := TriggerExitsTransaction(t, env, key, format, toTrigger).value;
    OneCallSafe(env, acts);
  }

  /** A check, possibly followed by a send, of one safe call is safe. */
  lemma OneCallSafe(env: Env, acts: seq<Action>)
    requires 1 <= |acts| <= 2
    requires |acts| == 2 ==> acts[1].call == acts[0].call
    requires CallSafe(env, acts[0].call)
    ensures ActionsSafe(env, acts)
  {
    forall j | 0 <= j < |acts| ensures CallSafe(env, acts[j].call) {
      if j == 1 {
        assert acts[1].call == acts[0].call;
      }
    }
  }

  lemma TriggerCallSafe(env: Env, t: BotState, key: DataKey, format: int, vs: seq<ExitRequest>, toTrigger: seq<ExitRequest>)
    requires key in t.dataBytesMap
    requires toTrigger == Select(env, vs, Triggered)
    requires forall v :: v in vs ==> UnpackExitRequest(t.dataBytesMap[key], v.index) == Success(v)
    ensures var r := TriggerExitsTransaction(t, env, key, format, toTrigger);
      r.Success? && CallSafe(env, r.value[0].call)
  {
    var r := TriggerExitsTransaction(t, env, key, format, toTrigger);
    var call := r.value[0].call;
    var data := t.dataBytesMap[key];
    assert call.exitsData.data == data;
    forall i | 0 <= i < |call.exitDataIndexes|
      ensures var rec := UnpackExitRequest(data, call.exitDataIndexes[i]);
        rec.Success? && Classify(env, rec.value) == Triggered
    {
      var v := toTrigger[i];
      assert v in toTrigger;
      assert call.exitDataIndexes[i] == v.index;
    }
  }

  lemma {:induction false} CheckAllUnderWf(env: Env, s: BotState, keys: seq<DataKey>)
    requires Wf(env, s)
    ensures var r := CheckAll(s, env, keys);
      && r.error.None?
      && Wf(env, r.state)
      && ActionsSafe(env, r.actions)
      && SentOnlyAfterCheck(env, r.actions)
    decreases |keys|
  {
    if |keys| > 0 {
      CheckAndTriggerUnderWf(env, s, keys[0]);
      var first := CheckAndTriggerExits(s, env, keys[0]);
      CheckAllUnderWf(env, first.state, keys[1..]);
      var rest := CheckAll(first.state, env, keys[1..]);
      CheckAllCons(s, env, keys);
      SafeConcat(env, first.actions, rest.actions);
      SentAfterCheckConcat(env, first.actions, rest.actions);
    }
  }

  lemma SafeConcat(env: Env, a: seq<Action>, b: seq<Action>)
    requires ActionsSafe(env, a) && ActionsSafe(env, b)
    ensures ActionsSafe(env, a + b)
  {
    var ab := a + b;
    forall j | 0 <= j < |ab| ensures CallSafe(env, ab[j].call) {
      if j >= |a| {
        assert ab[j] == b[j - |a|];
      }
    }
  }

  lemma SentAfterCheckConcat(env: Env, a: seq<Action>, b: seq<Action>)
    requires SentOnlyAfterCheck(env, a) && SentOnlyAfterCheck(env, b)
    ensures SentOnlyAfterCheck(env, a + b)
  {
    var ab := a + b;
    forall i | 0 <= i < |ab| && ab[i].Sent?
      ensures && i > 0
        && ab[i - 1] == Checked(ab[i].call, ab[i].value)
        && env.check(ab[i].call, ab[i].value)
    {
      if i >= |a| {
        assert ab[i] == b[i - |a|];
        if i > |a| {
          assert ab[i - 1] == b[i - |a| - 1];
        }
      }
    }
  }

  // ---------------------------------------------------------------------
  // The event loop

  /** One event of `trigger_exits`. */
  function ProcessEvent(s: BotState, env: Env, ev: Event): (r: Result<BotState, BotError>)
    ensures !Fetched(env, ev) ==> r == Failure(MissingTransaction(ev.transactionHash))
    ensures Fetched(env, ev) && env.getReceipt(ev.transactionHash).value.status != 1 ==> r == Success(s)
    ensures Fetched(env, ev) && env.getReceipt(ev.transactionHash).value.status == 1 ==>
            var input := env.getTransaction(ev.transactionHash).value.input;
            && (r.Failure? <==> DecodeTransactionInput(env.decodeCall, input).None?)
            && (r.Failure? ==> r.error == UndecodableInput(ev.transactionHash))
            && (r.Success? ==>
                  var call := DecodeTransactionInput(env.decodeCall, input).value;
                  var submission := Submission(call.0, call.1);
                  r.value == Store(s, env, submission.0, submission.1))
  {
    var h := ev.transactionHash;
    if !Fetched(env, ev) then Failure(MissingTransaction(h))
    else if env.getReceipt(h).value.status != 1 then Success(s)
    else
      match DecodeTransactionInput(env.decodeCall, env.getTransaction(h).value.input)
      case None => Failure(UndecodableInput(h))
      case Some((fnName, params)) => Success(ProcessSubmission(s, env, fnName, params))
  }

  /** Both the transaction and its receipt came back. */
  predicate Fetched(env: Env, ev: Event) {
    env.getTransaction(ev.transactionHash).Some? && env.getReceipt(ev.transactionHash).Some?
  }

  /** The events in order; the first exception ends the loop, keeping what
      the earlier events stored. Reading events issues no action, and the
      only exceptions are a missing transaction or an undecodable input. */
  function ProcessEvents(s: BotState, env: Env, events: seq<Event>): (r: Step)
    ensures r.actions == []
    ensures r.error.Some? ==> r.error.value.MissingTransaction? || r.error.value.UndecodableInput?
    ensures r.error.Some? ==> exists i :: 0 <= i < |events| && r.error.value.transactionHash == events[i].transactionHash
    decreases |events|
  {
    if |events| == 0 then Step(s, [], None)
    else
      match ProcessEvent(s, env, events[0])
      case Failure(e) => Step(s, [], Some(e))
      case Success(s') =>
        var r := ProcessEvents(s', env, events[1..]);
        assert forall i :: 0 <= i < |events[1..]| ==> events[1..][i] == events[i + 1];
        r
  }

  /** One step of the event loop: the first event is processed; an
      exception there ends the loop with the state as it was, otherwise the
      rest is processed from the state the first event left. */
  lemma ProcessEventsCons(s: BotState, env: Env, events: seq<Event>)
    ensures |events| == 0 ==> ProcessEvents(s, env, events) == Step(s, [], None)
    ensures |events| > 0 ==>
      var p := ProcessEvent(s, env, events[0]);
      ProcessEvents(s, env, events) ==
        if p.Failure? then Step(s, [], Some(p.error)) else ProcessEvents(p.value, env, events[1..])
  {
  }

  /** Processing events never forgets a stored payload. */
  lemma {:induction false} ProcessEventsKeysGrow(s: BotState, env: Env, events: seq<Event>)
    ensures s.validatorsMap.Keys <= ProcessEvents(s, env, events).state.validatorsMap.Keys
    decreases |events|
  {
    if |events| > 0 {
      match ProcessEvent(s, env, events[0])
      case Failure(_) =>
      case Success(s') => ProcessEventsKeysGrow(s', env, events[1..]);
    }
  }

  /** When the event loop returns normally, every event whose transaction
      succeeded was decoded, and its payload is stored under its digest. */
  lemma {:induction false} ProcessedPayloadStored(s: BotState, env: Env, events: seq<Event>, i: nat)
    requires i < |events|
    requires ProcessEvents(s, env, events).error.None?
    requires Fetched(env, events[i]) && env.getReceipt(events[i].transactionHash).value.status == 1
    ensures var d := DecodeTransactionInput(env.decodeCall, env.getTransaction(events[i].transactionHash).value.input);
      && d.Some?
      && env.digest(Submission(d.value.0, d.value.1).0) in ProcessEvents(s, env, events).state.validatorsMap
    decreases i
  {
    ProcessEventsCons(s, env, events);
    var p := ProcessEvent(s, env, events[0]);
    assert p.Success?;
    if i == 0 {
      EventPayloadStored(s, env, events[0]);
      ProcessEventsKeysGrow(p.value, env, events[1..]);
    } else {
      assert events[1..][i - 1] == events[i];
      ProcessedPayloadStored(p.value, env, events[1..], i - 1);
    }
  }

  /** One event with a successful transaction that does not raise stores
      its decoded payload. */
  lemma EventPayloadStored(s: BotState, env: Env, ev: Event)
    requires Fetched(env, ev) && env.getReceipt(ev.transactionHash).value.status == 1
    requires ProcessEvent(s, env, ev).Success?
    ensures var d := DecodeTransactionInput(env.decodeCall, env.getTransaction(ev.transactionHash).value.input);
      && d.Some?
      && env.digest(Submission(d.value.0, d.value.1).0) in ProcessEvent(s, env, ev).value.validatorsMap
  {
    var d := DecodeTransactionInput(env.decodeCall, env.getTransaction(ev.transactionHash).value.input);
    var (fnName, params) := d.value;
    var sub := Submission(fnName, params);
    assert GetValidatorsForData(ProcessSubmission(s, env, fnName, params), env, sub.0).Some?;
  }

  /** Processing the events `a` and then `b`: an exception in `a` ends the
      loop with what `a` stored; otherwise `b` is processed from the state
      `a` left. */
  lemma {:induction false} ProcessEventsAppend(s: BotState, env: Env, a: seq<Event>, b: seq<Event>)
    ensures var ra := ProcessEvents(s, env, a);
      ProcessEvents(s, env, a + b) == if ra.error.Some? then ra else ProcessEvents(ra.state, env, b)
    decreases |a|
  {
    if |a| == 0 {
      assert a + b == b;
    } else {
      assert (a + b)[0] == a[0];
      assert (a + b)[1..] == a[1..] + b;
      match ProcessEvent(s, env, a[0])
      case Failure(_) =>
      case Success(s') => ProcessEventsAppend(s', env, a[1..], b);
    }
  }

  /** `trigger_exits`: process the events, then check every key stored at
      that moment. */
  function TriggerExitsCycle(s: BotState, env: Env, events: seq<Event>): (r: Step)
    ensures var p := ProcessEvents(s, env, events);
      && (p.error.Some? ==> r == p)
      && (p.error.None? ==> r == CheckAll(p.state, env, p.state.order))
    ensures r.error.Some? ==> r.actions == [] || r.error.value.MissingExitData?
  {
    var processed := ProcessEvents(s, env, events);
    if processed.error.Some? then processed
    else CheckAll(processed.state, env, processed.state.order)
  }

  lemma {:induction false} ProcessEventsPreservesWf(env: Env, s: BotState, events: seq<Event>)
    requires Wf(env, s)
    ensures Wf(env, ProcessEvents(s, env, events).state)
    decreases |events|
  {
    if |events| > 0 {
      match ProcessEvent(s, env, events[0])
      case Failure(e) =>
      case Success(s') =>
        if Fetched(env, events[0]) && env.getReceipt(events[0].transactionHash).value.status == 1 {
          var input := env.getTransaction(events[0].transactionHash).value.input;
          var (fnName, params) := DecodeTransactionInput(env.decodeCall, input).value;
          var (data, format) := Submission(fnName, params);
          StorePreservesWf(env, s, data, format);
        }
        ProcessEventsPreservesWf(env, s', events[1..]);
    }
  }

  /** A cycle from a well-formed state ends well-formed whether or not it
      raises; it can only raise while reading events, never for missing raw
      data; every exit it triggers is for a reported, not-exited record at
      the index sent; and every key stored after the events is checked. */
  lemma CycleUnderWf(env: Env, s: BotState, events: seq<Event>)
    requires Wf(env, s)
    ensures var r := TriggerExitsCycle(s, env, events);
      && Wf(env, r.state)
      && (r.error.Some? ==> r.error.value.MissingTransaction? || r.error.value.UndecodableInput?)
      && ActionsSafe(env, r.actions)
      && SentOnlyAfterCheck(env, r.actions)
    ensures var r := TriggerExitsCycle(s, env, events);
      var p := ProcessEvents(s, env, events).state;
      r.error.None? ==>
        && r.state.validatorsMap.Keys == p.validatorsMap.Keys
        && forall k :: k in p.validatorsMap ==> r.state.validatorsMap[k] == Kept(env, p.validatorsMap[k])
  {
    ProcessEventsPreservesWf(env, s, events);
    var processed := ProcessEvents(s, env, events);
    if processed.error.None? {
      CheckAllUnderWf(env, processed.state, processed.state.order);
    }
  }

  /** An event whose transaction did not succeed changes nothing. */
  lemma FailedTransactionSkipped(env: Env, s: BotState, ev: Event, rest: seq<Event>)
    requires Fetched(env, ev) && env.getReceipt(ev.transactionHash).value.status != 1
    ensures ProcessEvents(s, env, [ev] + rest) == ProcessEvents(s, env, rest)
  {
    assert ([ev] + rest)[1..] == rest;
  }
}
