/** Balance of a participant, computed the way the node computes it (per-block
    lists of amounts folded with a running sum) and related to a flat reference
    ledger: received on confirmed transactions, minus sent on confirmed and
    pending transactions. */
module Balance {
  import opened Records

  /** Which end of a transaction a participant is matched against. */
  datatype Side = Sender | Recipient

  function Party(tx: Transaction, side: Side): string
  {
    match side
    case Sender => tx.sender
    case Recipient => tx.recipient
  }

  /** `[tx.amount for tx in txs if <side of tx> == p]` */
  function Amounts(txs: seq<Transaction>, p: string, side: Side): seq<int>
  {
    if |txs| == 0 then []
    else (if Party(txs[0], side) == p then [txs[0].amount] else []) + Amounts(txs[1..], p, side)
  }

  /** One list of amounts per block, in chain order. */
  function AmountsPerBlock(chain: seq<Block>, p: string, side: Side): seq<seq<int>>
  {
    if |chain| == 0 then [] else [Amounts(chain[0].transactions, p, side)] + AmountsPerBlock(chain[1..], p, side)
  }

  function Sum(xs: seq<int>): int
  {
    if |xs| == 0 then 0 else xs[0] + Sum(xs[1..])
  }

  /** Left fold adding each inner list's sum to the running total (an empty
      inner list adds 0). */
  function Reduce(acc: int, xss: seq<seq<int>>): int
    decreases |xss|
  {
    if |xss| == 0 then acc
    else Reduce(if |xss[0]| > 0 then acc + Sum(xss[0]) else acc + 0, xss[1..])
  }

  /** The node's balance scan for participant `p`. */
  function ScanBalance(chain: seq<Block>, pool: seq<Transaction>, p: string): (r: int)
    ensures r == Ledger(chain, pool, p)
  {
    var sent := Reduce(0, AmountsPerBlock(chain, p, Sender) + [Amounts(pool, p, Sender)]);
    var received := Reduce(0, AmountsPerBlock(chain, p, Recipient));
    ScanMatchesLedger(chain, pool, p);
    received - sent
  }

  // ---------------------------------------------------------------------
  // Reference ledger

  /** Every confirmed transaction, block after block. */
  function Confirmed(chain: seq<Block>): seq<Transaction>
  {
    if |chain| == 0 then [] else chain[0].transactions + Confirmed(chain[1..])
  }

  /** Sum of the amounts of the transactions whose `side` is `p`. */
  function Total(txs: seq<Transaction>, p: string, side: Side): int
  {
    if |txs| == 0 then 0
    else (if Party(txs[0], side) == p then txs[0].amount else 0) + Total(txs[1..], p, side)
  }

  /** Received on the chain, minus sent on the chain and in the pool. */
  function Ledger(chain: seq<Block>, pool: seq<Transaction>, p: string): int
  {
    Total(Confirmed(chain), p, Recipient) - Total(Confirmed(chain) + pool, p, Sender)
  }

  // ---------------------------------------------------------------------
  // Lemmas

  lemma {:induction false} SumOfAmounts(txs: seq<Transaction>, p: string, side: Side)
    ensures Sum(Amounts(txs, p, side)) == Total(txs, p, side)
  {
    if |txs| > 0 {
      SumOfAmounts(txs[1..], p, side);
      var head := if Party(txs[0], side) == p then [txs[0].amount] else [];
      SumAppend(head, Amounts(txs[1..], p, side));
    }
  }

  lemma {:induction false} SumAppend(a: seq<int>, b: seq<int>)
    ensures Sum(a + b) == Sum(a) + Sum(b)
  {
    if |a| > 0 {
      assert (a + b)[1..] == a[1..] + b;
      SumAppend(a[1..], b);
    } else {
      assert a + b == b;
    }
  }

  /** Splitting the transactions splits the total. */
  lemma {:induction false} TotalAppend(a: seq<Transaction>, b: seq<Transaction>, p: string, side: Side)
    ensures Total(a + b, p, side) == Total(a, p, side) + Total(b, p, side)
  {
    if |a| > 0 {
      assert (a + b)[1..] == a[1..] + b;
      TotalAppend(a[1..], b, p, side);
    } else {
      assert a + b == b;
    }
  }

  /** Sum of the sums of the inner lists. */
  function SumAll(xss: seq<seq<int>>): int
  {
    if |xss| == 0 then 0 else Sum(xss[0]) + SumAll(xss[1..])
  }

  /** The fold with its empty-list special case adds up every inner list. */
  lemma {:induction false} ReduceSums(acc: int, xss: seq<seq<int>>)
    ensures Reduce(acc, xss) == acc + SumAll(xss)
    decreases |xss|
  {
    if |xss| > 0 {
      ReduceSums(acc + Sum(xss[0]), xss[1..]);
    }
  }

  lemma {:induction false} SumAllSnoc(xss: seq<seq<int>>, x: seq<int>)
    ensures SumAll(xss + [x]) == SumAll(xss) + Sum(x)
  {
    if |xss| == 0 {
      assert xss + [x] == [x];
      assert [x][1..] == [];
    } else {
      assert (xss + [x])[1..] == xss[1..] + [x];
      SumAllSnoc(xss[1..], x);
    }
  }

  /** The per-block lists of a chain add up to the flat total of its transactions. */
  lemma {:induction false} PerBlockTotal(chain: seq<Block>, p: string, side: Side)
    ensures SumAll(AmountsPerBlock(chain, p, side)) == Total(Confirmed(chain), p, side)
  {
    if |chain| > 0 {
      var xss := AmountsPerBlock(chain, p, side);
      assert xss[0] == Amounts(chain[0].transactions, p, side);
      assert xss[1..] == AmountsPerBlock(chain[1..], p, side);
      PerBlockTotal(chain[1..], p, side);
      SumOfAmounts(chain[0].transactions, p, side);
      TotalAppend(chain[0].transactions, Confirmed(chain[1..]), p, side);
    }
  }

  /** The scan the node performs equals the reference ledger. */
  lemma ScanMatchesLedger(chain: seq<Block>, pool: seq<Transaction>, p: string)
    ensures Reduce(0, AmountsPerBlock(chain, p, Recipient)) - Reduce(0, AmountsPerBlock(chain, p, Sender) + [Amounts(pool, p, Sender)])
         == Ledger(chain, pool, p)
  {
    var sentLists := AmountsPerBlock(chain, p, Sender) + [Amounts(pool, p, Sender)];
    ReduceSums(0, AmountsPerBlock(chain, p, Recipient));
    ReduceSums(0, sentLists);
    SumAllSnoc(AmountsPerBlock(chain, p, Sender), Amounts(pool, p, Sender));
    PerBlockTotal(chain, p, Recipient);
    PerBlockTotal(chain, p, Sender);
    SumOfAmounts(pool, p, Sender);
    TotalAppend(Confirmed(chain), pool, p, Sender);
  }

  /** A participant named in no transaction of `txs` has a zero total. */
  lemma {:induction false} TotalOfStranger(txs: seq<Transaction>, p: string, side: Side)
    requires forall tx :: tx in txs ==> tx.sender != p && tx.recipient != p
    ensures Total(txs, p, side) == 0
  {
    if |txs| > 0 {
      assert txs[0] in txs;
      TotalOfStranger(txs[1..], p, side);
    }
  }

  /** A participant with no transactions anywhere has balance 0. */
  lemma StrangerHasZeroBalance(chain: seq<Block>, pool: seq<Transaction>, p: string)
    requires forall tx :: tx in Confirmed(chain) + pool ==> tx.sender != p && tx.recipient != p
    ensures ScanBalance(chain, pool, p) == 0
  {
    TotalOfStranger(Confirmed(chain) + pool, p, Sender);
    TotalOfStranger(Confirmed(chain), p, Recipient);
  }

  /** Confirmed transactions of an extended chain. */
  lemma {:induction false} ConfirmedAppend(chain: seq<Block>, b: Block)
    ensures Confirmed(chain + [b]) == Confirmed(chain) + b.transactions
  {
    if |chain| == 0 {
      assert chain + [b] == [b];
      assert Confirmed([b][1..]) == [];
    } else {
      assert (chain + [b])[1..] == chain[1..] + [b];
      ConfirmedAppend(chain[1..], b);
    }
  }
}
