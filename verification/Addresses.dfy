/** How wallets are named. */
module Addresses {

  type Key = nat

  /** A wallet is named by its public key or by the numeric id the chain has given it. */
  datatype Address = PublicKey(key: Key) | WalletId(id: nat)
}
