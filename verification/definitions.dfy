/** Protocol-wide constants (QubicDefinitions). */
module Definitions {

  const SIGNATURE_LENGTH: nat := 64
  const PUBLIC_KEY_LENGTH: nat := 32
  const MAX_TRANSACTION_SIZE: nat := 1024
  const DIGEST_LENGTH: nat := 32
  const SPECTRUM_DEPTH: nat := 24
  const NUMBER_OF_TRANSACTIONS_PER_TICK: nat := 1024
  const MAX_NUMBER_OF_CONTRACTS: nat := 1024

  /** Sixty 'A's: the identity of the all-zero public key. */
  const EMPTY_ADDRESS: string := Repeat('A', 60)
  const QX_ADDRESS: string := "BAAAAAAAAAAAAAAAAAAAAAAAAAAAAAAAAAAAAAAAAAAAAAAAAAAAAAAARMID"
  const ARBITRATOR: string := "AFZPUAIYVPNUYGJRQVLUKOPPVLHAZQTGLYAAUUNBXFTVTAMSBKQBLEIEPCVJ"
  const QX_TRANSFER_ASSET_FEE: nat := 100
  const QX_ISSUE_ASSET_FEE: nat := 1000000000
  const QX_ISSUE_ASSET_INPUT_TYPE: nat := 1
  const QX_TRANSFER_ASSET_INPUT_TYPE: nat := 2
  const QX_ADD_ASK_ORDER: nat := 5
  const QX_ADD_BID_ORDER: nat := 6
  const QX_REMOVE_ASK_ORDER: nat := 7
  const QX_REMOVE_BID_ORDER: nat := 8

  const QUTIL_ADDRESS: string := "EAAAAAAAAAAAAAAAAAAAAAAAAAAAAAAAAAAAAAAAAAAAAAAAAAAAAAAAVWRF"
  const QUTIL_SENDMANY_INPUT_TYPE: nat := 1
  const QUTIL_SENDMANY_FEE: nat := 10

  /** `n` copies of `c`. */
  function Repeat(c: char, n: nat): (r: string)
    ensures |r| == n && forall i :: 0 <= i < n ==> r[i] == c
  {
    if n == 0 then "" else [c] + Repeat(c, n - 1)
  }
}
