/** Validity checks: the proof-of-work predicate, whole-chain verification and
    the balance-sufficiency test for a new transaction. */
module Verification {
  import opened Records

  /** The text whose digest is the puzzle: rendered transactions, then the
      previous hash, then the nonce in decimal. */
  function Guess(o: Oracles, transactions: seq<Transaction>, lastHash: string, nonce: int): string
  {
    o.renderTransactions(transactions) + lastHash + Decimal(nonce)
  }

  /** The slice `s[0:k]`, which is the whole of `s` when `s` is shorter than `k`. */
  function Prefix(s: string, k: nat): (r: string)
    ensures |r| == if |s| < k then |s| else k
    ensures forall i :: 0 <= i < |r| ==> r[i] == s[i]
  {
    if |s| <= k then s else s[..k]
  }

  /** The puzzle holds when the digest of the guess starts with two zeros. */
  predicate ValidPow(o: Oracles, transactions: seq<Transaction>, lastHash: string, nonce: int)
  {
    Prefix(o.hashString256(Guess(o, transactions, lastHash, nonce)), 2) == "00"
  }

  /** The puzzle asks for a digest of at least two characters, both '0'; a
      shorter digest never passes. */
  lemma ValidPowMeaning(o: Oracles, transactions: seq<Transaction>, lastHash: string, nonce: int)
    ensures ValidPow(o, transactions, lastHash, nonce)
        <==> var d := o.hashString256(Guess(o, transactions, lastHash, nonce));
             |d| >= 2 && d[0] == '0' && d[1] == '0'
  {
    var d := o.hashString256(Guess(o, transactions, lastHash, nonce));
    if |d| >= 2 && d[0] == '0' && d[1] == '0' {
      assert Prefix(d, 2) == "00";
    }
  }

  /** A block's own puzzle: its transactions except the last (the reward). */
  predicate BlockPowOk(o: Oracles, b: Block)
  {
    ValidPow(o, AllButLast(b.transactions), b.previousHash, b.proof)
  }

  /** `b` may follow `prev`: it names `prev`'s hash and solves its puzzle. */
  predicate Extends(o: Oracles, prev: Block, b: Block)
  {
    b.previousHash == o.hashBlock(prev) && BlockPowOk(o, b)
  }

  predicate LinkedAt(o: Oracles, chain: seq<Block>, i: int)
    requires 0 < i < |chain|
  {
    Extends(o, chain[i - 1], chain[i])
  }

  /** Every block after the genesis block extends its predecessor. */
  predicate ChainVerified(o: Oracles, chain: seq<Block>)
  {
    forall i :: 0 < i < |chain| ==> LinkedAt(o, chain, i)
  }

  /** Scans the chain oldest first, skipping index 0, and stops at the first
      block whose hash link or puzzle fails. */
  method ChainVerification(o: Oracles, chain: seq<Block>) returns (ok: bool)
    ensures ok <==> ChainVerified(o, chain)
    ensures |chain| <= 1 ==> ok
  {
    var index := 0;
    while index < |chain|
      invariant 0 <= index <= |chain|
      invariant forall i :: 0 < i < index ==> LinkedAt(o, chain, i)
    {
      if index == 0 {
        index := index + 1;
        continue;
      }
      var block := chain[index];
      if block.previousHash != o.hashBlock(chain[index - 1]) {
        assert !LinkedAt(o, chain, index);
        return false;
      }
      if !ValidPow(o, AllButLast(block.transactions), block.previousHash, block.proof) {
        assert !LinkedAt(o, chain, index);
        return false;
      }
      index := index + 1;
    }
    return true;
  }

  /** Every prefix of a verified chain is verified. */
  lemma {:induction false} ChainVerifiedPrefix(o: Oracles, chain: seq<Block>, k: nat)
    requires ChainVerified(o, chain)
    requires k <= |chain|
    ensures ChainVerified(o, chain[..k])
  {
    forall i | 0 < i < k
      ensures LinkedAt(o, chain[..k], i)
    {
      assert LinkedAt(o, chain, i);
    }
  }

  /** Appending a block to a non-empty chain keeps it verified exactly when
      the block extends the old last block and the old chain was verified. */
  lemma {:induction false} ChainVerifiedAppend(o: Oracles, chain: seq<Block>, b: Block)
    requires |chain| > 0
    ensures ChainVerified(o, chain + [b]) <==> ChainVerified(o, chain) && Extends(o, Last(chain), b)
  {
    var c := chain + [b];
    if ChainVerified(o, c) {
      assert LinkedAt(o, c, |chain|);
      assert c[..|chain|] == chain;
      ChainVerifiedPrefix(o, c, |chain|);
    }
    if ChainVerified(o, chain) && Extends(o, Last(chain), b) {
      forall i | 0 < i < |c|
        ensures LinkedAt(o, c, i)
      {
        if i < |chain| {
          assert LinkedAt(o, chain, i);
        }
      }
    }
  }

  /** The puzzle of a block does not look at its last transaction, so the
      reward may be credited to anyone without disturbing the proof. */
  lemma PowIgnoresReward(o: Oracles, b: Block, reward: Transaction, other: Transaction)
    ensures BlockPowOk(o, b.(transactions := AllButLast(b.transactions) + [reward]))
        <==> BlockPowOk(o, b.(transactions := AllButLast(b.transactions) + [other]))
  {
    var front := AllButLast(b.transactions);
    assert AllButLast(front + [reward]) == front;
    assert AllButLast(front + [other]) == front;
  }

  /** Funds check for a new transaction. The balance callback is consulted
      with no participant, so it answers for its default participant. */
  function VerifyTransaction(tx: Transaction, getBalance: Option<string> -> Option<int>): bool
    requires getBalance(None).Some?
  {
    getBalance(None).value >= tx.amount
  }
}
