/** Transactions, 64-bit amounts and the overflow-checked arithmetic of the source. */
module Transactions {
  import opened Options

  const TwoTo64: int := 0x1_0000_0000_0000_0000
  const MaxUint64: int := 0xFFFF_FFFF_FFFF_FFFF

  type U64 = x: int | 0 <= x < 0x1_0000_0000_0000_0000

  /** 64-bit arithmetic wraps around. */
  function Wrap(x: int): U64 {
    x % TwoTo64
  }

  /** The source's AddUint64Overflow and SubUint64Overflow for two numbers. */
  function CheckedAdd(a: U64, b: U64): (r: Option<U64>)
    ensures r.Some? <==> a + b < TwoTo64
    ensures r.Some? ==> r.value == a + b
  {
    if MaxUint64 - a < b then None else Some(a + b)
  }

  function CheckedSub(a: U64, b: U64): (r: Option<U64>)
    ensures r.Some? <==> a >= b
    ensures r.Some? ==> r.value == a - b
  {
    if a < b then None else Some(a - b)
  }

  /** An address as it is printed; the printed form never contains the separator of the hash index. */
  type Address = s: string | '|' !in s witness ""

  datatype TransactionType =
    | Transfer | CoinBase | Lock | Unlock | Mortgage | BindingAddress | EvmContract | Pledge | EvmKto
    | Token | PledgeBreak | WithdrawToEth

  datatype Transaction = Transaction(version: U64, kind: TransactionType, from: Address, to: Address,
                                     amount: U64, nonce: U64, gasLimit: U64, gasFeeCap: U64, gasPrice: U64,
                                     input: seq<nat>)
  {
    /** The fee limit wraps around like the source's product of two 64-bit numbers. */
    function GasCap(): U64 {
      Wrap(gasLimit * gasPrice)
    }

    /** The hash covers these fields and no others; two transactions with equal hashes agree on them. */
    function Hash(): Digest {
      Digest(from, to, version, amount, nonce, gasLimit, gasPrice, gasFeeCap)
    }
  }

  /** SHA-256 of the listed fields, taken to be free of collisions. */
  datatype Digest = Digest(from: Address, to: Address, version: U64, amount: U64, nonce: U64,
                           gasLimit: U64, gasPrice: U64, gasFeeCap: U64)

  datatype SignedTransaction = SignedTransaction(tx: Transaction, signature: seq<nat>)
  {
    function Caller(): Address { tx.from }
    function Nonce(): U64 { tx.nonce }
    function GasCap(): U64 { tx.GasCap() }
    function Hash(): Digest { tx.Hash() }
  }
}
