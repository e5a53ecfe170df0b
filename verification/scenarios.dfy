/** Concrete runs of the ledger from a fresh node hosted by "A". */
module Scenarios {
  import opened Records
  import opened Verification
  import opened Balance
  import opened Blockchain

  /** Mining once from the genesis chain with an empty pool yields a second
      block holding only the reward, and "A" then owns exactly the reward. */
  lemma MineFromGenesis(o: Oracles, proof: int, now: int, reply: string -> PeerReply)
    ensures var r := MineWithProof(Init(Some("A")), o, proof, now, reply);
            && |r.0.chain| == 2
            && r.1.Some?
            && r.1.value.transactions == [Transaction("MINING", "A", "", 10)]
            && GetBalance(r.0, Some("A")) == Some(10)
            && GetBalance(r.0, None) == Some(10)
  {
    var s := Init(Some("A"));
    assert AllSigned(o, s.openTransactions);
    var r := MineWithProof(s, o, proof, now, reply);
    var b := r.1.value;
    assert |b.transactions| == 1 && Last(b.transactions) == Reward("A");
    assert b.transactions == [Reward("A")];
    assert |r.0.chain| == |s.chain| + 1;
    FreshLedgerIsZero("A");
    assert Total(s.openTransactions, "A", Recipient) == 0;
    MinedBalances(s, o, proof, now, reply, "A");
    assert Ledger(r.0.chain, r.0.openTransactions, "A") == 10;
  }

  /** On the genesis chain with an empty pool everyone's balance is 0. */
  lemma FreshLedgerIsZero(p: string)
    ensures Ledger(Init(Some("A")).chain, [], p) == 0
  {
    assert Confirmed([Genesis]) == [];
    assert Confirmed([Genesis]) + [] == [];
  }

  /** "A" holds nothing on a fresh chain, so sending 5 is refused and the
      state is left as it was. */
  lemma RejectedWithoutFunds(signature: string, reply: string -> PeerReply)
    ensures AddTransaction(Init(Some("A")), "B", "A", signature, 5, false, reply) == (Init(Some("A")), false)
  {
    FreshLedgerIsZero("A");
  }

  /** Admission checks the host's balance rather than the sender's: once "A"
      has mined, a relayed transaction of 5 from "B", who owns nothing, is
      admitted. */
  lemma RelayedOverdraftAdmitted(o: Oracles, proof: int, now: int, reply: string -> PeerReply, signature: string)
    ensures var s := MineWithProof(Init(Some("A")), o, proof, now, reply).0;
            && Ledger(s.chain, s.openTransactions, "B") == 0
            && AddTransaction(s, "C", "B", signature, 5, true, reply).1
  {
    var s0 := Init(Some("A"));
    MineFromGenesis(o, proof, now, reply);
    assert AllSigned(o, s0.openTransactions);
    FreshLedgerIsZero("B");
    assert Total(s0.openTransactions, "B", Recipient) == 0;
    MinedBalances(s0, o, proof, now, reply, "B");
  }
}
