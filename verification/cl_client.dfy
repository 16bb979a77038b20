/** The consensus-layer client's pure parts: the classification of a beacon
    node's validator status and the index-to-public-key map. The HTTP
    requests are a parameter (`Lookup`) or already-fetched input. */
module ClClient {
  import opened Wrappers

  /** The fields of a beacon-API validator record the client reads. */
  datatype ValidatorData = ValidatorData(status: Option<string>)

  /** What `GET /eth/v1/beacon/states/head/validators/{pubkey}` produced:
      an exception (transport, HTTP status, JSON), a body with an `error`
      field, or a body whose `data` field may be missing. */
  datatype LookupResponse = Raised | ErrorBody | Body(data: Option<ValidatorData>)

  type Lookup = string -> LookupResponse

  /** `get_validator_by_pubkey`: every failure becomes `None`. */
  function GetValidatorByPubkey(lookup: Lookup, pubKey: string): (r: Option<ValidatorData>)
    ensures r.Some? <==> lookup(pubKey).Body? && lookup(pubKey).data.Some?
    ensures r.Some? ==> r.value == lookup(pubKey).data.value
  {
    match lookup(pubKey)
    case Raised => None
    case ErrorBody => None
    case Body(data) => data
  }

  /** Lower-cases the ASCII letters and leaves every other character alone. */
  function LowerChar(c: char): (r: char)
    ensures 'A' <= c <= 'Z' ==> 'a' <= r <= 'z' && r as int - c as int == 32
    ensures !('A' <= c <= 'Z') ==> r == c
  {
    if 'A' <= c <= 'Z' then (c as int + 32) as char else c
  }

  /** `str.lower()` on ASCII text. */
  function Lower(s: string): (r: string)
    ensures |r| == |s|
    ensures forall i :: 0 <= i < |s| ==> r[i] == LowerChar(s[i])
  {
    if |s| == 0 then "" else [LowerChar(s[0])] + Lower(s[1..])
  }

  lemma LowerIdempotent(s: string)
    ensures Lower(Lower(s)) == Lower(s)
  {
    assert forall i :: 0 <= i < |s| ==> LowerChar(LowerChar(s[i])) == LowerChar(s[i]);
  }

  /** The statuses in which a validator has left the active set. */
  const EXITED_STATES: seq<string> := ["withdrawal_done", "withdrawal_possible", "exited_slashed", "exited_unslashed"]

  /** The statuses of a validator that has not exited. */
  const ACTIVE_STATES: seq<string> :=
    ["pending_initialized", "pending_queued", "active_ongoing", "active_exiting", "active_slashed"]

  /** The status classification, case-insensitive. */
  predicate IsExitedStatus(status: string) {
    Lower(status) in EXITED_STATES
  }

  /** `is_validator_exited`: a validator the lookup cannot find counts as not
      exited; a record without a status counts as status `""`. */
  function IsValidatorExited(lookup: Lookup, pubKey: string): (r: bool)
    ensures GetValidatorByPubkey(lookup, pubKey).None? ==> !r
    ensures r <==> lookup(pubKey).Body? && lookup(pubKey).data.Some?
                   && IsExitedStatus(lookup(pubKey).data.value.status.GetOr(""))
  {
    match GetValidatorByPubkey(lookup, pubKey)
    case None => false
    case Some(v) => Lower(v.status.GetOr("")) in EXITED_STATES
  }

  /** Two statuses that differ only in letter case classify alike. */
  lemma StatusCaseInsensitive(s: string, t: string)
    requires Lower(s) == Lower(t)
    ensures IsExitedStatus(s) <==> IsExitedStatus(t)
  {
  }

  /** Each exited state, written in lower case, is exited. */
  lemma ExitedStatesAreExited()
    ensures forall i :: 0 <= i < |EXITED_STATES| ==> IsExitedStatus(EXITED_STATES[i])
  {
    forall i | 0 <= i < |EXITED_STATES| ensures IsExitedStatus(EXITED_STATES[i]) {
      LowerFixesLowercase(EXITED_STATES[i]);
    }
  }

  /** Upper-cases the ASCII letters. */
  function UpperChar(c: char): (r: char)
    ensures 'a' <= c <= 'z' ==> 'A' <= r <= 'Z' && c as int - r as int == 32
    ensures !('a' <= c <= 'z') ==> r == c
  {
    if 'a' <= c <= 'z' then (c as int - 32) as char else c
  }

  /** Any spelling of an exited state in which some letters are upper case
      (`"WITHDRAWAL_DONE"`, `"Exited_Slashed"`) is exited too. */
  lemma MixedCaseStatusExited(s: string, t: string)
    requires s in EXITED_STATES
    requires |t| == |s|
    requires forall i :: 0 <= i < |s| ==> t[i] == s[i] || t[i] == UpperChar(s[i])
    ensures IsExitedStatus(t)
  {
    LowerFixesLowercaseOnly(s);
    var l := Lower(t);
    forall i | 0 <= i < |s| ensures l[i] == s[i] {
      assert l[i] == LowerChar(t[i]);
    }
    assert l == s;
  }

  /** Text that lower-casing leaves alone has no upper-case letter. */
  lemma LowerFixesLowercaseOnly(s: string)
    requires s in EXITED_STATES
    ensures forall i :: 0 <= i < |s| ==> !('A' <= s[i] <= 'Z')
  {
  }

  /** A record without a status is not exited. */
  lemma MissingStatusNotExited()
    ensures !IsExitedStatus("")
  {
    assert Lower("") == "";
  }

  /** No active or pending state is exited. */
  lemma ActiveStatesNotExited()
    ensures forall i :: 0 <= i < |ACTIVE_STATES| ==> !IsExitedStatus(ACTIVE_STATES[i])
  {
    forall i | 0 <= i < |ACTIVE_STATES| ensures !IsExitedStatus(ACTIVE_STATES[i]) {
      LowerFixesLowercase(ACTIVE_STATES[i]);
      ActiveNotExited(i);
    }
  }

  lemma LowerFixesLowercase(s: string)
    requires forall i :: 0 <= i < |s| ==> !('A' <= s[i] <= 'Z')
    ensures Lower(s) == s
  {
  }

  lemma ActiveNotExited(i: nat)
    requires i < |ACTIVE_STATES|
    ensures ACTIVE_STATES[i] !in EXITED_STATES
  {
    var a := ACTIVE_STATES[i];
    assert a[0] == 'p' || a[0] == 'a';
    forall j | 0 <= j < |EXITED_STATES| ensures EXITED_STATES[j] != a {
      assert EXITED_STATES[j][0] == 'w' || EXITED_STATES[j][0] == 'e';
    }
  }

  /** One entry of the `/eth/v1/beacon/states/head/validators` list, with
      its index already read as an integer. */
  datatype ValidatorEntry = ValidatorEntry(index: int, pubkey: string)

  /** `get_validators_by_indexes`: a dictionary comprehension, so a repeated
      index keeps the pubkey of its last entry. */
  function ValidatorsByIndexes(entries: seq<ValidatorEntry>): (m: map<int, string>)
    ensures forall i :: i in m <==> exists k :: 0 <= k < |entries| && entries[k].index == i
    ensures forall k :: 0 <= k < |entries| && LastWithIndex(entries, k) ==> m[entries[k].index] == entries[k].pubkey
  {
    if |entries| == 0 then map[]
    else
      var init := entries[..|entries| - 1];
      var m := ValidatorsByIndexes(init);
      ByIndexesStep(entries, m);
      m[entries[|entries| - 1].index := entries[|entries| - 1].pubkey]
  }

  lemma ByIndexesStep(entries: seq<ValidatorEntry>, m: map<int, string>)
    requires |entries| > 0
    requires var init := entries[..|entries| - 1];
      && (forall i :: i in m <==> exists k :: 0 <= k < |init| && init[k].index == i)
      && (forall k :: 0 <= k < |init| && LastWithIndex(init, k) ==> m[init[k].index] == init[k].pubkey)
    ensures var e := entries[|entries| - 1];
      var m' := m[e.index := e.pubkey];
      && (forall i :: i in m' <==> exists k :: 0 <= k < |entries| && entries[k].index == i)
      && (forall k :: 0 <= k < |entries| && LastWithIndex(entries, k) ==> m'[entries[k].index] == entries[k].pubkey)
  {
    var n := |entries|;
    var init := entries[..n - 1];
    var e := entries[n - 1];
    var m' := m[e.index := e.pubkey];
    forall i ensures i in m' <==> exists k :: 0 <= k < n && entries[k].index == i {
      if i in m' && i != e.index {
        var k :| 0 <= k < |init| && init[k].index == i;
        assert entries[k].index == i;
      }
      if i !in m' {
        forall k | 0 <= k < n ensures entries[k].index != i {
          if k < n - 1 {
            assert init[k] == entries[k];
          }
        }
      }
    }
    forall k | 0 <= k < n && LastWithIndex(entries, k) ensures m'[entries[k].index] == entries[k].pubkey {
      if k < n - 1 {
        assert init[k] == entries[k];
        assert entries[k].index != e.index;
        assert LastWithIndex(init, k) by {
          forall j | k < j < |init| ensures init[j].index != init[k].index {
            assert init[j] == entries[j];
          }
        }
      }
    }
  }

  /** No later entry repeats entry `k`'s index. */
  predicate LastWithIndex(entries: seq<ValidatorEntry>, k: nat)
    requires k < |entries|
  {
    forall j :: k < j < |entries| ==> entries[j].index != entries[k].index
  }
}
