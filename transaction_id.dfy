/**
 * The transaction-id gate of the `/logs/:uuid` handler and the search key handed to grep:
 * the id with its per-transaction `.N` suffix removed, so that the connection's own lines
 * (which carry the id without the suffix) are found too.
 */
module TransactionId {
  import opened Text

  const MIN_ID_LENGTH := 12
  const MAX_ID_LENGTH := 40

  /** `/-/.test(uuid)`. */
  predicate HasDash(uuid: string) { '-' in uuid }

  /** `/^[0-9A-F\-.]{12,40}$/.test(uuid)`. */
  predicate MatchesIdPattern(uuid: string) {
    MIN_ID_LENGTH <= |uuid| <= MAX_ID_LENGTH && forall k :: 0 <= k < |uuid| ==> IsIdChar(uuid[k])
  }

  /** The handler goes on to search only for ids that pass both checks. */
  predicate IsValidId(uuid: string) { HasDash(uuid) && MatchesIdPattern(uuid) }

  /** `s` ends in `.` followed by exactly `d` digits, 1 <= d <= 2: a match of `/\.[0-9]{1,2}$/`. */
  predicate TxnSuffixShape(s: string, d: nat) {
    && 1 <= d <= 2
    && d + 1 <= |s|
    && s[|s| - d - 1] == '.'
    && forall k :: |s| - d <= k < |s| ==> IsDigit(s[k])
  }

  /** The length of the `.N` suffix of `s` (dot included), or 0 when `s` has none. */
  function TxnSuffixLength(s: string): (n: nat)
    ensures n <= |s|
    ensures n > 0 ==> TxnSuffixShape(s, n - 1)
    ensures forall d: nat :: TxnSuffixShape(s, d) ==> n == d + 1
    ensures n == 0 <==> forall d: nat :: !TxnSuffixShape(s, d)
  {
    var len := |s|;
    if len >= 3 && s[len - 3] == '.' && IsDigit(s[len - 2]) && IsDigit(s[len - 1]) then 3
    else if len >= 2 && s[len - 2] == '.' && IsDigit(s[len - 1]) then
      assert TxnSuffixShape(s, 1);
      2
    else 0
  }

  /** The transaction number N of an id that ends in `.N`. */
  function TxnNumber(s: string): (n: string)
    requires TxnSuffixLength(s) > 0
    ensures 1 <= |n| <= 2 && |n| + 1 <= |s| && forall k :: 0 <= k < |n| ==> IsDigit(n[k])
    ensures s == s[..|s| - |n| - 1] + "." + n
  {
    var n := s[|s| - TxnSuffixLength(s) + 1..];
    assert s == s[..|s| - |n| - 1] + "." + n;
    n
  }

  /**
   * The search string of `grepWithShell`: the id with a trailing `.N` removed when it
   * has one, and the id itself otherwise.
   */
  function SearchKey(uuid: string): (key: string)
    ensures |key| <= |uuid| && key == uuid[..|key|]
    ensures |uuid| - |key| <= 3
    ensures key != uuid <==> exists d: nat :: TxnSuffixShape(uuid, d)
    ensures forall d: nat :: TxnSuffixShape(uuid, d) ==> key == uuid[..|uuid| - d - 1]
  {
    uuid[..|uuid| - TxnSuffixLength(uuid)]
  }

  /**
   * Removing the suffix is not idempotent: an id with two `.N` groups loses one per
   * application, so the key of a key can be shorter still.
   */
  lemma SearchKeyNotIdempotent()
    ensures IsValidId("AB12-34-CD.1.2")
    ensures SearchKey("AB12-34-CD.1.2") == "AB12-34-CD.1"
    ensures SearchKey(SearchKey("AB12-34-CD.1.2")) == "AB12-34-CD"
  {
    assert TxnSuffixShape("AB12-34-CD.1.2", 1);
    assert TxnSuffixShape("AB12-34-CD.1", 1);
  }
}
