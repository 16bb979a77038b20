/** The plain records shared by the scripts: an exit request input and a
    key as listed by the keys API. Public keys are hex strings here, compared
    as text. */
module Types {

  /** One exit request input: staking module, node operator, beacon-chain
      validator index, public key (hex text) and the key's index within its
      operator's key list. */
  datatype Key = Key(
    moduleId: int,
    noId: int,
    validatorIndex: int,
    validatorPubKey: string,
    pubKeyIndex: int)

  /** A key as the keys API reports it: everything a `Key` has except the
      beacon-chain validator index. */
  datatype KapiKey = KapiKey(
    moduleId: int,
    noId: int,
    validatorPubKey: string,
    pubKeyIndex: int)
}
