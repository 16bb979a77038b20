/** The two report calls of the Validator Exit Bus Oracle contract, as the
    bot recognises them in a transaction's input, and the `triggerExits`
    call it builds. The ABI decoder itself is a parameter: it returns the
    called function's name and its arguments, or `None` when decoding
    raises. */
module ValidatorExitBusOracle {
  import opened Wrappers
  import opened BigEndian

  const SUBMIT_REPORT_DATA: string := "submitReportData"
  const SUBMIT_EXIT_REQUESTS_DATA: string := "submitExitRequestsData"

  /** The fields of a decoded `data` / `request` struct argument that the bot
      reads; either may be absent from the decoded dictionary. */
  datatype ExitsStruct = ExitsStruct(data: Option<seq<byte>>, dataFormat: Option<int>)

  /** A decoded call: the function name and its arguments by name. */
  datatype DecodedCall = DecodedCall(fnName: string, params: map<string, ExitsStruct>)

  /** `decode_function_input`; `None` stands for any exception it raises. */
  type CallDecoder = seq<byte> -> Option<DecodedCall>

  /** The arguments of the call when it decodes and is named `name`. */
  function DecodeNamed(decode: CallDecoder, input: seq<byte>, name: string): (r: Option<map<string, ExitsStruct>>)
    ensures r.Some? <==> decode(input).Some? && decode(input).value.fnName == name
    ensures r.Some? ==> r.value == decode(input).value.params
  {
    match decode(input)
    case None => None
    case Some(call) => if call.fnName == name then Some(call.params) else None
  }

  /** `decode_submit_report_data`. */
  function DecodeSubmitReportData(decode: CallDecoder, input: seq<byte>): (r: Option<map<string, ExitsStruct>>)
    ensures r.Some? <==> decode(input).Some? && decode(input).value.fnName == SUBMIT_REPORT_DATA
    ensures r.Some? ==> r.value == decode(input).value.params
  {
    DecodeNamed(decode, input, SUBMIT_REPORT_DATA)
  }

  /** `decode_submit_exit_requests_data`. */
  function DecodeSubmitExitRequestsData(decode: CallDecoder, input: seq<byte>): (r: Option<map<string, ExitsStruct>>)
    ensures r.Some? <==> decode(input).Some? && decode(input).value.fnName == SUBMIT_EXIT_REQUESTS_DATA
    ensures r.Some? ==> r.value == decode(input).value.params
  {
    DecodeNamed(decode, input, SUBMIT_EXIT_REQUESTS_DATA)
  }

  /** The two decoders share one ABI decode and accept different names, so
      at most one of them accepts any given input. */
  lemma DecodersExclusive(decode: CallDecoder, input: seq<byte>)
    ensures !(DecodeSubmitReportData(decode, input).Some? && DecodeSubmitExitRequestsData(decode, input).Some?)
  {
    assert |SUBMIT_REPORT_DATA| != |SUBMIT_EXIT_REQUESTS_DATA|;
  }

  /** The `exitsData` struct argument of `triggerExits`. */
  datatype ExitsData = ExitsData(data: seq<byte>, dataFormat: int)

  /** A built `triggerExits(exitsData, exitDataIndexes, refundRecipient)` call. */
  datatype TriggerExitsCall = TriggerExitsCall(exitsData: ExitsData, exitDataIndexes: seq<int>, refundRecipient: string)

  /** `trigger_exits`: the payload and format go into the struct, the index
      list and the recipient are passed through. */
  function TriggerExits(exitsData: seq<byte>, dataFormat: int, indexes: seq<int>, recipient: string): (r: TriggerExitsCall)
    ensures r.exitsData.data == exitsData && r.exitsData.dataFormat == dataFormat
    ensures r.exitDataIndexes == indexes && r.refundRecipient == recipient
  {
    TriggerExitsCall(ExitsData(exitsData, dataFormat), indexes, recipient)
  }
}
