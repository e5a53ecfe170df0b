/** The ledger's records: transactions, blocks, the fixed genesis block and the
    collaborators (hashing, transaction rendering, signature checking) that live
    in modules outside this model and are therefore passed in as parameters. */
module Records {

  datatype Option<+T> = None | Some(value: T)

  /** A value transfer. Amounts are integers here; the node itself uses floats. */
  datatype Transaction = Transaction(sender: string, recipient: string, signature: string, amount: int)

  datatype Block = Block(index: int, previousHash: string, transactions: seq<Transaction>, proof: int, timestamp: int)

  /** Sender of every reward transaction. */
  const MiningSender: string := "MINING"

  /** Reward credited to the hosting node for each mined block. */
  const MiningReward: int := 10

  /** Block 0 of every fresh chain: no predecessor hash, no transactions, proof 100. */
  const Genesis: Block := Block(0, "", [], 100, 0)

  /** The functions the ledger calls but does not define. Nothing is assumed
      about them: every property below holds for every choice of these. */
  datatype Oracles = Oracles(
    hashBlock: Block -> string,                       // hash of a whole block
    hashString256: string -> string,                  // hex digest of an encoded string
    renderTransactions: seq<Transaction> -> string,   // text of the list of ordered dicts
    signatureOk: Transaction -> bool)                 // wallet signature check

  function Last<T>(s: seq<T>): T
    requires |s| > 0
  {
    s[|s| - 1]
  }

  /** The slice `s[:-1]`: everything but the last element, and empty for an empty list. */
  function AllButLast<T>(s: seq<T>): (r: seq<T>)
    ensures |s| > 0 ==> r + [Last(s)] == s
    ensures |s| == 0 ==> r == []
  {
    if |s| == 0 then [] else s[..|s| - 1]
  }

  function DigitChar(d: int): char
    requires 0 <= d < 10
  {
    "0123456789"[d]
  }

  function Digits(n: nat): string
    decreases n
  {
    if n < 10 then [DigitChar(n)] else Digits(n / 10) + [DigitChar(n % 10)]
  }

  /** Decimal text of an integer, as `str` prints it. */
  function Decimal(n: int): string
  {
    if n < 0 then "-" + Digits(-n) else Digits(n)
  }
}
