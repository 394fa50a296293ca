/** Transactions and blocks, reduced to the fields the checks read. Address derivation is left out:
    an input carries the address its public key derives to. */
module Ledger {

  datatype TxType =
    | Genesis | Unknown | Transfer | Stake | Unstake | Delegate | Undelegate | Declaration | Deploy
    | InvokeContract | Lock | UnLock | Proposal | RevokeProposal | Vote | Fund | Bonus

  /** One input: a non-empty contractAddr marks an input spent by a contract. */
  datatype Vin = Vin(contractAddr: string, addr: string, prevouts: seq<string>)

  datatype Utxo = Utxo(assetType: string, vins: seq<Vin>)

  /** normal says that GetTransactionType classifies the transaction as an ordinary one. */
  datatype Tx = Tx(hash: string, normal: bool, txType: TxType, time: nat, utxos: seq<Utxo>)

  datatype Block = Block(hash: string, prevHash: string, height: nat, time: nat, txs: seq<Tx>)
}
