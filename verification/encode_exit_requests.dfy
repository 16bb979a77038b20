/** The compact ("VEB") encoding of exit requests: sorted by
    `(module_id, no_id, validator_index)`, each request written as 3 + 5 + 8
    big-endian bytes followed by its public key, all concatenated and
    returned as hex text. */
module EncodeExitRequests {
  import opened Wrappers
  import opened BigEndian
  import opened Hex
  import opened Types
  import opened ExitDataDecoder

  const MODULE_ID_LENGTH: nat := 3
  const NODE_OPERATOR_ID_LENGTH: nat := 5
  const VALIDATOR_INDEX_LENGTH: nat := 8
  const VALIDATOR_PUB_KEY_LENGTH: nat := 48

  /** The requests an encoder holds, already in protocol order. */
  datatype ValidatorExitData = ValidatorExitData(exitRequests: seq<Key>)

  /** The tuple a request is sorted by. */
  function SortKey(k: Key): (int, int, int) {
    (k.moduleId, k.noId, k.validatorIndex)
  }

  /** Lexicographic `<=` on the sort tuple, as Python compares tuples. */
  predicate KeyLe(a: Key, b: Key) {
    || a.moduleId < b.moduleId
    || (a.moduleId == b.moduleId && a.noId < b.noId)
    || (a.moduleId == b.moduleId && a.noId == b.noId && a.validatorIndex <= b.validatorIndex)
  }

  predicate SortedByKey(s: seq<Key>) {
    forall i, j :: 0 <= i < j < |s| ==> KeyLe(s[i], s[j])
  }

  /** The requests of `s` whose sort tuple is `key`, in their order in `s`.
      A sort is stable when it keeps every such subsequence. */
  function WithSortKey(s: seq<Key>, key: (int, int, int)): seq<Key> {
    if |s| == 0 then []
    else (if SortKey(s[0]) == key then [s[0]] else []) + WithSortKey(s[1..], key)
  }

  /** Places `k` before the first request it does not sort after, so that it
      stays in front of requests with the same tuple. */
  function Insert(k: Key, s: seq<Key>): (r: seq<Key>)
    requires SortedByKey(s)
    ensures SortedByKey(r)
    ensures multiset(r) == multiset(s) + multiset{k}
    ensures r[0] == k || (|s| > 0 && r[0] == s[0])
  {
    if |s| == 0 || KeyLe(k, s[0]) then
      ConsSorted(k, s);
      [k] + s
    else
      var rest := Insert(k, s[1..]);
      assert s == [s[0]] + s[1..];
      ConsSorted(s[0], rest);
      [s[0]] + rest
  }

  lemma ConsSorted(x: Key, t: seq<Key>)
    requires SortedByKey(t)
    requires |t| == 0 || KeyLe(x, t[0])
    ensures SortedByKey([x] + t)
  {
  }

  /** `sorted(exit_requests, key=...)`: insertion sort, stable. */
  function SortRequests(s: seq<Key>): (r: seq<Key>)
    ensures SortedByKey(r)
    ensures multiset(r) == multiset(s)
  {
    if |s| == 0 then []
    else
      assert s == [s[0]] + s[1..];
      Insert(s[0], SortRequests(s[1..]))
  }

  lemma WithSortKeyCons(x: Key, t: seq<Key>, key: (int, int, int))
    ensures WithSortKey([x] + t, key) == (if SortKey(x) == key then [x] else []) + WithSortKey(t, key)
  {
    assert ([x] + t)[1..] == t;
  }

  lemma {:induction false} InsertStable(k: Key, s: seq<Key>, key: (int, int, int))
    requires SortedByKey(s)
    ensures WithSortKey(Insert(k, s), key) == WithSortKey([k] + s, key)
  {
    if |s| > 0 && !KeyLe(k, s[0]) {
      var t := s[1..];
      assert s == [s[0]] + t;
      InsertStable(k, t, key);
      WithSortKeyCons(s[0], Insert(k, t), key);
      WithSortKeyCons(k, t, key);
      WithSortKeyCons(k, s, key);
      WithSortKeyCons(s[0], t, key);
    }
  }

  lemma {:induction false} SortStable(s: seq<Key>, key: (int, int, int))
    ensures WithSortKey(SortRequests(s), key) == WithSortKey(s, key)
  {
    if |s| > 0 {
      var t := s[1..];
      assert s == [s[0]] + t;
      SortStable(t, key);
      InsertStable(s[0], SortRequests(t), key);
      WithSortKeyCons(s[0], SortRequests(t), key);
      WithSortKeyCons(s[0], t, key);
    }
  }

  /** `ValidatorExitData(exit_requests)`: holds a stable, sorted permutation
      of its input. */
  function NewValidatorExitData(keys: seq<Key>): (d: ValidatorExitData)
    ensures SortedByKey(d.exitRequests)
    ensures multiset(d.exitRequests) == multiset(keys)
    ensures |d.exitRequests| == |keys|
    ensures AllEncodable(keys) ==> AllEncodable(d.exitRequests)
    ensures AllFullKeys(keys) ==> AllFullKeys(d.exitRequests)
    ensures forall key :: WithSortKey(d.exitRequests, key) == WithSortKey(keys, key)
  {
    SortStableAll(keys);
    var sorted := SortRequests(keys);
    assert |multiset(sorted)| == |multiset(keys)|;
    assert forall i :: 0 <= i < |sorted| ==> sorted[i] in multiset(keys);
    ValidatorExitData(sorted)
  }

  lemma SortStableAll(s: seq<Key>)
    ensures forall key :: WithSortKey(SortRequests(s), key) == WithSortKey(s, key)
  {
    forall key {
      SortStable(s, key);
    }
  }

  /** What `to_bytes` and `HexBytes` accept: each field fits its width and
      the public key is hex text. */
  predicate Encodable(k: Key) {
    && 0 <= k.moduleId < Pow256(MODULE_ID_LENGTH)
    && 0 <= k.noId < Pow256(NODE_OPERATOR_ID_LENGTH)
    && 0 <= k.validatorIndex < Pow256(VALIDATOR_INDEX_LENGTH)
    && IsHexString(k.validatorPubKey)
  }

  /** The public key is hex text of exactly 48 bytes. */
  predicate FullKey(k: Key) {
    IsHexString(k.validatorPubKey) && |HexToBytes(k.validatorPubKey)| == VALIDATOR_PUB_KEY_LENGTH
  }

  predicate AllEncodable(reqs: seq<Key>) {
    forall i :: 0 <= i < |reqs| ==> Encodable(reqs[i])
  }

  predicate AllFullKeys(reqs: seq<Key>) {
    forall i :: 0 <= i < |reqs| ==> FullKey(reqs[i])
  }

  /** `to_bytes` raises `OverflowError` and `HexBytes` raises `ValueError`;
      the encoder stops at the first request that cannot be written. */
  datatype EncodeError = NotEncodable(position: nat)

  /** The bytes one request contributes to the payload. */
  function RequestBytes(k: Key): (r: seq<byte>)
    requires Encodable(k)
    ensures |r| == MODULE_ID_LENGTH + NODE_OPERATOR_ID_LENGTH + VALIDATOR_INDEX_LENGTH
                   + |HexToBytes(k.validatorPubKey)|
  {
    ToBE(k.moduleId, MODULE_ID_LENGTH)
      + ToBE(k.noId, NODE_OPERATOR_ID_LENGTH)
      + ToBE(k.validatorIndex, VALIDATOR_INDEX_LENGTH)
      + HexToBytes(k.validatorPubKey)
  }

  /** The payload bytes: every request's bytes, appended in order. */
  function VebBytes(reqs: seq<Key>): (r: seq<byte>)
    requires AllEncodable(reqs)
  {
    if |reqs| == 0 then []
    else VebBytes(reqs[..|reqs| - 1]) + RequestBytes(reqs[|reqs| - 1])
  }

  /** The position of the first request that cannot be written. */
  function FirstUnencodable(reqs: seq<Key>): (p: nat)
    requires !AllEncodable(reqs)
    ensures p < |reqs| && !Encodable(reqs[p])
    ensures forall j :: 0 <= j < p ==> Encodable(reqs[j])
  {
    if !Encodable(reqs[0]) then 0
    else
      var p := FirstUnencodable(reqs[1..]);
      assert forall j :: 1 <= j <= p ==> reqs[j] == reqs[1..][j - 1];
      p + 1
  }

  /** `to_veb_calldata`: the payload as lower-case hex without a prefix, or
      the position of the request the encoder fails on. */
  function ToVebCalldata(d: ValidatorExitData): (r: Result<string, EncodeError>)
    ensures r.Success? <==> AllEncodable(d.exitRequests)
    ensures r.Success? ==> IsHexString(r.value) && HexToBytes(r.value) == VebBytes(d.exitRequests)
    ensures r.Success? ==> |r.value| < 2 || r.value[..2] != "0x"
    ensures |d.exitRequests| == 0 ==> r == Success("")
    ensures r.Failure? ==> var p := r.error.position;
      && p < |d.exitRequests| && !Encodable(d.exitRequests[p])
      && forall j :: 0 <= j < p ==> Encodable(d.exitRequests[j])
  {
    if AllEncodable(d.exitRequests) then
      HexRoundTrip(VebBytes(d.exitRequests));
      ToHexHasNoPrefix(VebBytes(d.exitRequests));
      Success(ToHex(VebBytes(d.exitRequests)))
    else
      Failure(NotEncodable(FirstUnencodable(d.exitRequests)))
  }

  /** With 48-byte keys every request takes exactly 64 bytes, and request `k`
      occupies bytes `64k .. 64k + 64`. */
  lemma {:induction false} VebLayout(reqs: seq<Key>)
    requires AllEncodable(reqs) && AllFullKeys(reqs)
    ensures |VebBytes(reqs)| == PACKED_REQUEST_LENGTH * |reqs|
    ensures forall k :: 0 <= k < |reqs| ==>
      VebBytes(reqs)[PACKED_REQUEST_LENGTH * k .. PACKED_REQUEST_LENGTH * (k + 1)] == RequestBytes(reqs[k])
  {
    if |reqs| > 0 {
      var n := |reqs|;
      var init := reqs[..n - 1];
      VebLayout(init);
      var a, b := VebBytes(init), RequestBytes(reqs[n - 1]);
      assert |b| == PACKED_REQUEST_LENGTH;
      assert VebBytes(reqs) == a + b;
      forall k | 0 <= k < n
        ensures (a + b)[PACKED_REQUEST_LENGTH * k .. PACKED_REQUEST_LENGTH * (k + 1)] == RequestBytes(reqs[k])
      {
        var lo, hi := PACKED_REQUEST_LENGTH * k, PACKED_REQUEST_LENGTH * (k + 1);
        if k < n - 1 {
          MulMonotone(k + 1, n - 1, PACKED_REQUEST_LENGTH);
          SliceOfConcatLeft(a, b, lo, hi);
          assert init[k] == reqs[k];
        } else {
          SliceOfConcatRight(a, b, lo, hi);
        }
      }
    }
  }

  lemma SliceOfConcatLeft<T>(a: seq<T>, b: seq<T>, lo: nat, hi: nat)
    requires lo <= hi <= |a|
    ensures (a + b)[lo..hi] == a[lo..hi]
  {
  }

  lemma SliceOfConcatRight<T>(a: seq<T>, b: seq<T>, lo: nat, hi: nat)
    requires lo == |a| && hi == |a| + |b|
    ensures (a + b)[lo..hi] == b
  {
  }

  /** The hex text is twice as long as the payload: 128 characters a request. */
  lemma CalldataLength(d: ValidatorExitData)
    requires AllEncodable(d.exitRequests) && AllFullKeys(d.exitRequests)
    ensures ToVebCalldata(d).Success?
    ensures |ToVebCalldata(d).value| == 2 * PACKED_REQUEST_LENGTH * |d.exitRequests|
  {
    var bytes := VebBytes(d.exitRequests);
    VebLayout(d.exitRequests);
    assert ToVebCalldata(d).value == ToHex(bytes);
    assert |ToHex(bytes)| == 2 * |bytes|;
  }

  /** The record a request is expected to decode back into at position `k`. */
  function Decoded(k: Key, position: nat): ExitRequest
    requires Encodable(k)
  {
    ExitRequest(HexToBytes(k.validatorPubKey), k.noId, k.moduleId, k.validatorIndex, position)
  }

  /** The 64 bytes of one request read back field by field. */
  lemma RecordRoundTrip(data: seq<byte>, k: Key, position: nat)
    requires Encodable(k) && FullKey(k)
    requires PACKED_REQUEST_LENGTH * (position + 1) <= |data|
    requires data[PACKED_REQUEST_LENGTH * position .. PACKED_REQUEST_LENGTH * (position + 1)] == RequestBytes(k)
    ensures SlicedRecord(data, position) == Decoded(k, position)
  {
    var o := PACKED_REQUEST_LENGTH * position;
    var rb := RequestBytes(k);
    var m, n, v := ToBE(k.moduleId, 3), ToBE(k.noId, 5), ToBE(k.validatorIndex, 8);
    var pk := HexToBytes(k.validatorPubKey);
    assert rb == m + n + v + pk;
    assert rb[0..3] == m;
    assert rb[3..8] == n;
    assert rb[8..16] == v;
    assert rb[16..64] == pk;
    SubSlice(data, o, o + 64, 0, 3);
    SubSlice(data, o, o + 64, 3, 8);
    SubSlice(data, o, o + 64, 8, 16);
    SubSlice(data, o, o + 64, 16, 64);
  }

  /** Decoding the encoder's payload gives back the sorted requests field for
      field, each tagged with its position. */
  lemma EncodeDecodeRoundTrip(keys: seq<Key>)
    requires AllEncodable(keys) && AllFullKeys(keys)
    ensures var d := NewValidatorExitData(keys);
      && ToVebCalldata(d).Success?
      && var bytes := HexToBytes(ToVebCalldata(d).value);
      && DecodeAllValidators(bytes).Success?
      && |DecodeAllValidators(bytes).value| == |keys|
      && forall k :: 0 <= k < |keys| ==>
           DecodeAllValidators(bytes).value[k] == Decoded(d.exitRequests[k], k)
  {
    var d := NewValidatorExitData(keys);
    var reqs := d.exitRequests;
    var bytes := VebBytes(reqs);
    VebLayout(reqs);
    var r := DecodeAllValidators(bytes);
    forall k | 0 <= k < |reqs|
      ensures r.value[k] == Decoded(reqs[k], k)
    {
      RecordRoundTrip(bytes, reqs[k], k);
    }
  }
}
