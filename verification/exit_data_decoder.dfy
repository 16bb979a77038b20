/** Local decoding of a packed exit-requests payload into validator records.
    The payload is a sequence of fixed 64-byte records, each a 16-byte
    big-endian metadata word followed by a 48-byte public key. */
module ExitDataDecoder {
  import opened Wrappers
  import opened BigEndian

  const PUBLIC_KEY_LENGTH: nat := 48
  const PACKED_REQUEST_LENGTH: nat := 64
  /** The metadata word in front of each public key. */
  const METADATA_LENGTH: nat := 16

  /** 2^64, 2^40 and 2^24: masking with `0xFF…FF` of that many bits is the
      remainder by these; shifting right is division. */
  const UINT64_MOD: nat := 0x1_0000_0000_0000_0000
  const UINT40_MOD: nat := 0x100_0000_0000
  const UINT24_MOD: nat := 0x100_0000
  /** 2^(64 + 40), the shift that brings `moduleId` down. */
  const MODULE_ID_SHIFT: nat := 0x100_0000_0000_0000_0000_0000_0000

  /** One decoded record: the dictionary `unpack_exit_request` returns.
      `index` is the record's position in the payload. */
  datatype ExitRequest = ExitRequest(
    pubkey: seq<byte>,
    nodeOpId: nat,
    moduleId: nat,
    valIndex: nat,
    index: int)

  datatype DecodeError =
    | IndexOutOfRange(index: int, count: nat)
    | UnpackFailed(index: int, cause: DecodeError)

  /** Whole records in the payload; a trailing partial record is ignored. */
  function CalculateRequestsCount(data: seq<byte>): (n: nat)
    ensures n * PACKED_REQUEST_LENGTH <= |data| < (n + 1) * PACKED_REQUEST_LENGTH
  {
    |data| / PACKED_REQUEST_LENGTH
  }

  /** Bits 0..63 of the metadata word. */
  function ValIndexOf(word: nat): nat {
    word % UINT64_MOD
  }

  /** Bits 64..103 of the metadata word. */
  function NodeOpIdOf(word: nat): nat {
    (word / UINT64_MOD) % UINT40_MOD
  }

  /** Bits 104..127 of the metadata word. */
  function ModuleIdOf(word: nat): nat {
    (word / MODULE_ID_SHIFT) % UINT24_MOD
  }

  /** The record at `index` read field by field as byte slices: 3 bytes of
      module id, 5 of operator id, 8 of validator index, 48 of public key.
      This is the reference the bit-field extraction is checked against. */
  function SlicedRecord(data: seq<byte>, index: nat): ExitRequest
    requires PACKED_REQUEST_LENGTH * (index + 1) <= |data|
  {
    var o := PACKED_REQUEST_LENGTH * index;
    ExitRequest(
      data[o + 16 .. o + 64],
      FromBE(data[o + 3 .. o + 8]),
      FromBE(data[o .. o + 3]),
      FromBE(data[o + 8 .. o + 16]),
      index)
  }

  /** Masking and shifting the 16-byte big-endian word picks out exactly
      its last 8, middle 5 and first 3 bytes. */
  lemma MetadataFields(w: seq<byte>)
    requires |w| == METADATA_LENGTH
    ensures ValIndexOf(FromBE(w)) == FromBE(w[8..16])
    ensures NodeOpIdOf(FromBE(w)) == FromBE(w[3..8])
    ensures ModuleIdOf(FromBE(w)) == FromBE(w[..3])
  {
    ValIndexField(w);
    NodeOpIdField(w);
    ModuleIdField(w);
  }

  lemma ValIndexField(w: seq<byte>)
    requires |w| == METADATA_LENGTH
    ensures ValIndexOf(FromBE(w)) == FromBE(w[8..16])
  {
    assert Pow256(8) == UINT64_MOD;
    SplitAt(w, 8);
    assert w[8..] == w[8..16];
  }

  lemma NodeOpIdField(w: seq<byte>)
    requires |w| == METADATA_LENGTH
    ensures NodeOpIdOf(FromBE(w)) == FromBE(w[3..8])
  {
    assert Pow256(8) == UINT64_MOD;
    assert Pow256(5) == UINT40_MOD;
    SplitAt(w, 8);
    SplitAt(w[..8], 3);
    assert w[..8][3..] == w[3..8];
  }

  lemma ModuleIdField(w: seq<byte>)
    requires |w| == METADATA_LENGTH
    ensures ModuleIdOf(FromBE(w)) == FromBE(w[..3])
  {
    assert Pow256(3) == UINT24_MOD;
    assert Pow256(13) == MODULE_ID_SHIFT;
    SplitAt(w, 3);
    var m := FromBE(w[..3]);
    DivModOf(m, 0, UINT24_MOD, m);
  }

  lemma SubSlice<T>(s: seq<T>, a: nat, b: nat, i: nat, j: nat)
    requires a <= b <= |s|
    requires i <= j <= b - a
    ensures s[a..b][i..j] == s[a + i .. a + j]
  {
    var u := s[a..b];
    assert forall k :: 0 <= k < j - i ==> u[i..j][k] == u[i + k];
  }

  lemma RecordFits(data: seq<byte>, index: nat)
    requires index < CalculateRequestsCount(data)
    ensures PACKED_REQUEST_LENGTH * (index + 1) <= |data|
  {
    MulMonotone(index + 1, CalculateRequestsCount(data), PACKED_REQUEST_LENGTH);
  }

  /** `unpack_exit_request` with the range check it evidently intends:
      any index outside `0 .. count - 1` is an error. */
  function UnpackExitRequest(data: seq<byte>, index: int): (r: Result<ExitRequest, DecodeError>)
    ensures r.Success? <==> 0 <= index && PACKED_REQUEST_LENGTH * (index + 1) <= |data|
    ensures r.Failure? ==> r.error == IndexOutOfRange(index, |data| / PACKED_REQUEST_LENGTH)
    ensures r.Success? ==> r.value == SlicedRecord(data, index)
    ensures r.Success? ==>
      && |r.value.pubkey| == PUBLIC_KEY_LENGTH
      && r.value.valIndex < UINT64_MOD
      && r.value.nodeOpId < UINT40_MOD
      && r.value.moduleId < UINT24_MOD
  {
    var count := CalculateRequestsCount(data);
    if index < 0 then Failure(IndexOutOfRange(index, count))
    else if index >= count then
      MulMonotone(count + 1, index + 1, PACKED_REQUEST_LENGTH);
      Failure(IndexOutOfRange(index, count))
    else
      RecordFits(data, index);
      var offset := PACKED_REQUEST_LENGTH * index;
      var metadata := data[offset .. offset + METADATA_LENGTH];
      var word := FromBE(metadata);
      var pubkeyOffset := offset + METADATA_LENGTH;
      MetadataFields(metadata);
      SubSlice(data, offset, offset + METADATA_LENGTH, 0, 3);
      SubSlice(data, offset, offset + METADATA_LENGTH, 3, 8);
      SubSlice(data, offset, offset + METADATA_LENGTH, 8, 16);
      Success(ExitRequest(
        data[pubkeyOffset .. pubkeyOffset + PUBLIC_KEY_LENGTH],
        NodeOpIdOf(word),
        ModuleIdOf(word),
        ValIndexOf(word),
        index))
  }

  /** Unpacks records `i .. count - 1`, stopping at the first failure. */
  function DecodeFrom(data: seq<byte>, i: nat): (r: Result<seq<ExitRequest>, DecodeError>)
    requires i <= CalculateRequestsCount(data)
    ensures r.Success?
    ensures |r.value| == CalculateRequestsCount(data) - i
    ensures forall k :: 0 <= k < |r.value| ==> Success(r.value[k]) == UnpackExitRequest(data, i + k)
    decreases CalculateRequestsCount(data) - i
  {
    if i == CalculateRequestsCount(data) then Success([])
    else
      RecordFits(data, i);
      match UnpackExitRequest(data, i)
      case Failure(e) => Failure(UnpackFailed(i, e))
      case Success(v) =>
        match DecodeFrom(data, i + 1)
        case Failure(e) => Failure(e)
        case Success(rest) =>
          assert forall k :: 0 < k <= |rest| ==> ([v] + rest)[k] == rest[k - 1];
          Success([v] + rest)
  }

  /** `decode_all_validators`: every whole record, in payload order. */
  function DecodeAllValidators(data: seq<byte>): (r: Result<seq<ExitRequest>, DecodeError>)
    ensures r.Success?
    ensures |r.value| == |data| / PACKED_REQUEST_LENGTH
    ensures forall i :: 0 <= i < |r.value| ==>
      PACKED_REQUEST_LENGTH * (i + 1) <= |data| && r.value[i] == SlicedRecord(data, i)
  {
    DecodeFrom(data, 0)
  }

  /** The first record of the decoding test's fixture payload. */
  const FIXTURE_METADATA: seq<byte> :=
    [0x00, 0x00, 0x01, 0x00, 0x00, 0x00, 0x00, 0x26, 0x00, 0x00, 0x00, 0x00, 0x00, 0x12, 0x57, 0x2a]
  const FIXTURE_PUBKEY: seq<byte> :=
    [0x91, 0x9d, 0x85, 0x8f, 0x5e, 0x2a, 0xf2, 0x1e, 0xf6, 0xf7, 0x52, 0x5b, 0xeb, 0x46, 0x21, 0x43,
     0x22, 0x08, 0x67, 0x5a, 0xcf, 0xf2, 0xf5, 0x4b, 0x71, 0xe7, 0x20, 0xce, 0xd0, 0x4e, 0x2e, 0x26,
     0xbf, 0xe4, 0xe2, 0xa7, 0x9b, 0xb3, 0x2a, 0x57, 0xd1, 0x47, 0x93, 0x56, 0x51, 0xee, 0x53, 0x1d]

  /** Any payload that starts with the fixture's first record decodes, at
      index 0, to module 1, operator 38, validator 1201962 and that key. */
  lemma FixtureFirstRecord(data: seq<byte>)
    requires |data| >= PACKED_REQUEST_LENGTH
    requires data[..PACKED_REQUEST_LENGTH] == FIXTURE_METADATA + FIXTURE_PUBKEY
    ensures UnpackExitRequest(data, 0) == Success(ExitRequest(FIXTURE_PUBKEY, 38, 1, 1201962, 0))
  {
    var head := FIXTURE_METADATA + FIXTURE_PUBKEY;
    SubSlice(data, 0, 64, 0, 3);
    SubSlice(data, 0, 64, 3, 8);
    SubSlice(data, 0, 64, 8, 16);
    SubSlice(data, 0, 64, 16, 64);
    assert data[0..3] == head[0..3] == [0x00, 0x00, 0x01];
    assert data[3..8] == head[3..8] == [0x00, 0x00, 0x00, 0x00, 0x26];
    assert data[8..16] == head[8..16] == [0x00, 0x00, 0x00, 0x00, 0x00, 0x12, 0x57, 0x2a];
    assert data[16..64] == head[16..64] == FIXTURE_PUBKEY;
    FixtureFieldValues();
    var r := UnpackExitRequest(data, 0);
    assert r.value == SlicedRecord(data, 0);
  }

  lemma FixtureFieldValues()
    ensures FromBE([0x00, 0x00, 0x01]) == 1
    ensures FromBE([0x00, 0x00, 0x00, 0x00, 0x26]) == 38
    ensures FromBE([0x00, 0x00, 0x00, 0x00, 0x00, 0x12, 0x57, 0x2a]) == 1201962
  {
    BigEndianOf3(0x00, 0x00, 0x01);
    BigEndianOf3(0x00, 0x00, 0x26);
    BigEndianOf3(0x12, 0x57, 0x2a);
    LeadingZeros([0x00, 0x00], [0x26]);
    LeadingZeros([0x00, 0x00, 0x00, 0x00, 0x00], [0x12, 0x57, 0x2a]);
    assert [0x00, 0x00, 0x00, 0x00, 0x26] == [0x00, 0x00] + [0x00, 0x00, 0x26];
    assert [0x00, 0x00, 0x00, 0x00, 0x00, 0x12, 0x57, 0x2a] == [0x00, 0x00, 0x00, 0x00, 0x00] + [0x12, 0x57, 0x2a];
    LeadingZeros([0x00, 0x00], [0x00, 0x00, 0x26]);
  }

  /** Leading zero bytes do not change a big-endian value. */
  lemma LeadingZeros(zeros: seq<byte>, s: seq<byte>)
    requires forall i :: 0 <= i < |zeros| ==> zeros[i] == 0
    ensures FromBE(zeros + s) == FromBE(s)
  {
    FromBEConcat(zeros, s);
    ZeroValue(zeros);
  }

  lemma {:induction false} ZeroValue(zeros: seq<byte>)
    requires forall i :: 0 <= i < |zeros| ==> zeros[i] == 0
    ensures FromBE(zeros) == 0
  {
    if |zeros| > 0 {
      ZeroValue(zeros[..|zeros| - 1]);
    }
  }

  lemma BigEndianOf3(a: byte, b: byte, c: byte)
    ensures FromBE([a, b, c]) == a * 0x1_0000 + b * 0x100 + c
  {
    assert [a, b, c][..2] == [a, b];
    assert [a, b][..1] == [a];
    assert [a][..0] == [];
    assert FromBE([a]) == a;
    assert FromBE([a, b]) == a * 256 + b;
    assert FromBE([a, b, c]) == (a * 256 + b) * 256 + c;
  }

  // ---------------------------------------------------------------------
  // The range check as written, with Python's slicing of negative bounds.

  /** A slice bound as Python normalises it: negative counts from the end,
      then clamped into `0 .. len`. */
  function PySliceBound(i: int, len: nat): (b: nat)
    ensures b <= len
  {
    if i < 0 then (if i + len < 0 then 0 else i + len)
    else if i > len then len
    else i
  }

  /** `s[start:stop]` in Python. */
  function PySlice<T>(s: seq<T>, start: int, stop: int): (r: seq<T>)
    ensures 0 <= start <= stop <= |s| ==> r == s[start..stop]
  {
    var a, b := PySliceBound(start, |s|), PySliceBound(stop, |s|);
    if a < b then s[a..b] else []
  }

  /** `unpack_exit_request` exactly as written: only `index >= count` is
      rejected, and the slices follow Python's rules for negative bounds. */
  function UnpackExitRequestAsWritten(data: seq<byte>, index: int): Result<ExitRequest, DecodeError> {
    var count := CalculateRequestsCount(data);
    if index >= count then Failure(IndexOutOfRange(index, count))
    else
      var offset := PACKED_REQUEST_LENGTH * index;
      var word := FromBE(PySlice(data, offset, offset + METADATA_LENGTH));
      var pubkeyOffset := offset + METADATA_LENGTH;
      Success(ExitRequest(
        PySlice(data, pubkeyOffset, pubkeyOffset + PUBLIC_KEY_LENGTH),
        NodeOpIdOf(word),
        ModuleIdOf(word),
        ValIndexOf(word),
        index))
  }

  /** For every index the decoder itself uses (`0 .. count - 1`, and any
      non-negative index), the code as written and the corrected range
      check agree. */
  lemma AsWrittenAgreesOnNaturals(data: seq<byte>, index: int)
    requires index >= 0
    ensures UnpackExitRequestAsWritten(data, index) == UnpackExitRequest(data, index)
  {
    if index < CalculateRequestsCount(data) {
      RecordFits(data, index);
    }
  }

  /** The input that shows the one-sided guard: one all-zero record and
      index -1 is accepted and yields a record whose public key is empty. */
  lemma NegativeIndexAccepted()
    ensures var data := seq(PACKED_REQUEST_LENGTH, _ => 0);
      && UnpackExitRequestAsWritten(data, -1).Success?
      && |UnpackExitRequestAsWritten(data, -1).value.pubkey| == 0
      && UnpackExitRequest(data, -1).Failure?
  {
  }
}
