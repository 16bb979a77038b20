/** `build_exit_request`: joins validator indexes with the consensus layer's
    index-to-pubkey map and then with the Keys API's key list. The two
    fetches are inputs; the script and its copy under `utils/` run the same
    loop. */
module ExitRequestBuilder {
  import opened Wrappers
  import opened Types

  /** The two `ValueError`s the join raises. */
  datatype JoinError = NotFoundInCl(validatorIndex: int) | NotFoundInKapi(pubKey: string)

  /** The position of the first key whose pubkey equals `pubKey` exactly. */
  function FirstMatch(keys: seq<KapiKey>, pubKey: string): (r: Option<nat>)
    ensures r.Some? ==> r.value < |keys| && keys[r.value].validatorPubKey == pubKey
    ensures r.Some? ==> forall j :: 0 <= j < r.value ==> keys[j].validatorPubKey != pubKey
    ensures r.None? <==> forall j :: 0 <= j < |keys| ==> keys[j].validatorPubKey != pubKey
  {
    if |keys| == 0 then None
    else if keys[0].validatorPubKey == pubKey then Some(0)
    else
      match FirstMatch(keys[1..], pubKey)
      case None => None
      case Some(j) => Some(j + 1)
  }

  /** The request for one index: its CL pubkey, then the first matching key. */
  function JoinOne(cl: map<int, string>, keys: seq<KapiKey>, validatorIndex: int): (r: Result<Key, JoinError>)
    ensures validatorIndex !in cl ==> r == Failure(NotFoundInCl(validatorIndex))
    ensures validatorIndex in cl && FirstMatch(keys, cl[validatorIndex]).None?
            ==> r == Failure(NotFoundInKapi(cl[validatorIndex]))
    ensures r.Success? ==> validatorIndex in cl && FirstMatch(keys, cl[validatorIndex]).Some?
    ensures r.Success? ==> var j := FirstMatch(keys, cl[validatorIndex]).value;
      r.value == Key(keys[j].moduleId, keys[j].noId, validatorIndex, keys[j].validatorPubKey, keys[j].pubKeyIndex)
  {
    if validatorIndex !in cl then Failure(NotFoundInCl(validatorIndex))
    else
      var pubKey := cl[validatorIndex];
      match FirstMatch(keys, pubKey)
      case None => Failure(NotFoundInKapi(pubKey))
      case Some(j) =>
        var k := keys[j];
        Success(Key(k.moduleId, k.noId, validatorIndex, k.validatorPubKey, k.pubKeyIndex))
  }

  /** `build_exit_request`: one request per index, in input order, or the
      error of the first index that cannot be joined (no partial result). */
  function BuildExitRequest(cl: map<int, string>, keys: seq<KapiKey>, indexes: seq<int>): (r: Result<seq<Key>, JoinError>)
    ensures r.Success? <==> forall i :: 0 <= i < |indexes| ==> JoinOne(cl, keys, indexes[i]).Success?
    ensures r.Success? ==> |r.value| == |indexes|
    ensures r.Success? ==> forall i :: 0 <= i < |indexes| ==> r.value[i] == JoinOne(cl, keys, indexes[i]).value
    ensures r.Failure? ==> exists p :: FirstFailure(cl, keys, indexes, p) && r.error == JoinOne(cl, keys, indexes[p]).error
  {
    if |indexes| == 0 then Success([])
    else
      match JoinOne(cl, keys, indexes[0])
      case Failure(e) =>
        assert FirstFailure(cl, keys, indexes, 0);
        Failure(e)
      case Success(k) =>
        var rest := BuildExitRequest(cl, keys, indexes[1..]);
        assert forall i :: 1 <= i < |indexes| ==> indexes[i] == indexes[1..][i - 1];
        if rest.Failure? then
          var p :| FirstFailure(cl, keys, indexes[1..], p) && rest.error == JoinOne(cl, keys, indexes[1..][p]).error;
          assert FirstFailure(cl, keys, indexes, p + 1);
          Failure(rest.error)
        else
          Success([k] + rest.value)
  }

  /** Index `p` is the first one the join fails on. */
  predicate FirstFailure(cl: map<int, string>, keys: seq<KapiKey>, indexes: seq<int>, p: int) {
    && 0 <= p < |indexes|
    && JoinOne(cl, keys, indexes[p]).Failure?
    && forall q :: 0 <= q < p ==> JoinOne(cl, keys, indexes[q]).Success?
  }

  /** What a successful join promises, in terms of the two inputs alone:
      the validator index comes from the input, and the module, operator,
      pubkey and key index come from the first key whose pubkey is the CL
      pubkey of that index. */
  lemma JoinedRequestsComeFromInputs(cl: map<int, string>, keys: seq<KapiKey>, indexes: seq<int>)
    requires BuildExitRequest(cl, keys, indexes).Success?
    ensures var out := BuildExitRequest(cl, keys, indexes).value;
      forall i :: 0 <= i < |indexes| ==>
        && indexes[i] in cl
        && out[i].validatorIndex == indexes[i]
        && out[i].validatorPubKey == cl[indexes[i]]
        && exists j :: 0 <= j < |keys| && keys[j].validatorPubKey == cl[indexes[i]]
             && out[i].moduleId == keys[j].moduleId && out[i].noId == keys[j].noId
             && out[i].pubKeyIndex == keys[j].pubKeyIndex
             && forall j' :: 0 <= j' < j ==> keys[j'].validatorPubKey != cl[indexes[i]]
  {
    var out := BuildExitRequest(cl, keys, indexes).value;
    forall i | 0 <= i < |indexes|
      ensures && indexes[i] in cl
        && out[i].validatorIndex == indexes[i]
        && out[i].validatorPubKey == cl[indexes[i]]
        && exists j :: 0 <= j < |keys| && keys[j].validatorPubKey == cl[indexes[i]]
             && out[i].moduleId == keys[j].moduleId && out[i].noId == keys[j].noId
             && out[i].pubKeyIndex == keys[j].pubKeyIndex
             && forall j' :: 0 <= j' < j ==> keys[j'].validatorPubKey != cl[indexes[i]]
    {
      assert JoinOne(cl, keys, indexes[i]).Success?;
      var j := FirstMatch(keys, cl[indexes[i]]).value;
      assert out[i] == JoinOne(cl, keys, indexes[i]).value;
    }
  }

  /** An index missing from the CL map makes the whole join fail, unless an
      earlier index already failed. */
  lemma MissingIndexFails(cl: map<int, string>, keys: seq<KapiKey>, indexes: seq<int>, p: nat)
    requires p < |indexes| && indexes[p] !in cl
    ensures BuildExitRequest(cl, keys, indexes).Failure?
    ensures (forall q :: 0 <= q < p ==> JoinOne(cl, keys, indexes[q]).Success?)
            ==> BuildExitRequest(cl, keys, indexes).error == NotFoundInCl(indexes[p])
  {
    var r := BuildExitRequest(cl, keys, indexes);
    assert JoinOne(cl, keys, indexes[p]).Failure?;
    if forall q :: 0 <= q < p ==> JoinOne(cl, keys, indexes[q]).Success? {
      var p' :| FirstFailure(cl, keys, indexes, p') && r.error == JoinOne(cl, keys, indexes[p']).error;
      assert p' == p;
    }
  }
}
