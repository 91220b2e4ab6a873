/** The chain-agnostic types that every other module is built on. */
module Domain {

  datatype Option<+T> = None | Some(value: T)

  datatype ChainId = Bitcoin | Ethereum | Base | Solana | Tron

  /** Chain-native address text; only the chain adapter knows its format. */
  type Address = string

  type WalletId = string

  type DerivationPath = string

  type Byte = n: nat | n < 256

  type Bytes = seq<Byte>

  datatype Account = Account(chain: ChainId, address: Address, path: DerivationPath)

  /** `name` is the label a user gives the wallet; `createdAt` is an instant on an abstract time line. */
  datatype Wallet = Wallet(id: WalletId, name: string, createdAt: int, accounts: seq<Account>)

  datatype EventType = Inbound | Outbound | Confirmation

  datatype TxStatus = Pending | Confirmed | Failed | Unknown

  /** `address` is the watched side, `counterparty` the other one ("" when there is none). */
  datatype TxEvent = TxEvent(
    kind: EventType,
    chain: ChainId,
    address: Address,
    counterparty: Address,
    hash: string,
    amount: int,
    symbol: string,
    status: TxStatus,
    height: nat,
    timestamp: int)

  const TWO_TO_THE_63 := 0x8000_0000_0000_0000
  const TWO_TO_THE_64 := 0x1_0000_0000_0000_0000

  /** An unsigned 64-bit block height. */
  type Height = n: nat | n < TWO_TO_THE_64

  /** A signed 64-bit number. */
  type Int64 = v: int | -TWO_TO_THE_63 <= v < TWO_TO_THE_63

  /**
   * What 64 bits keep of a number: the result of 64-bit arithmetic, and the conversion `int64(h)` that precedes every
   * write of a height to a BIGINT column.
   */
  function ToInt64(v: int): Int64 {
    var low := v % TWO_TO_THE_64;
    if low < TWO_TO_THE_63 then low else low - TWO_TO_THE_64
  }

  /** The conversion `uint64(v)` that follows every read of such a column. */
  function ToUint64(v: int): nat {
    v % TWO_TO_THE_64
  }
}
