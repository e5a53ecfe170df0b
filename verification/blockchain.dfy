/** The node's ledger as one state value, and the operations of the chain
    store over it: balance query, transaction admission, proof-of-work search,
    mining, peer-block ingestion, conflict resolution and the peer registry. */
module Blockchain {
  import opened Records
  import opened Verification
  import opened Balance
  import opened Pool

  datatype State = State(
    chain: seq<Block>,
    openTransactions: seq<Transaction>,
    peerNodes: set<string>,
    hostingNode: Option<string>,
    resolveConflicts: bool)

  /** What one peer answered to a broadcast: no connection, or an HTTP status. */
  datatype PeerReply = Unreachable | Status(code: int)

  /** A peer that answers 400 or 500 has declined the payload. */
  predicate Declines(reply: PeerReply)
  {
    reply.Status? && (reply.code == 400 || reply.code == 500)
  }

  /** A fresh node before anything is loaded from disk: the genesis block
      alone, which passes verification under any hashing, and a ledger in
      which everybody owns nothing. */
  function Init(hostingNode: Option<string>): (r: State)
    ensures r.chain == [Genesis] && r.openTransactions == []
    ensures r.peerNodes == {} && r.hostingNode == hostingNode && !r.resolveConflicts
    ensures forall o: Oracles :: ChainVerified(o, r.chain)
    ensures forall p :: Ledger(r.chain, r.openTransactions, p) == 0
  {
    assert Confirmed([Genesis]) + [] == [];
    State([Genesis], [], {}, hostingNode, false)
  }

  /** The reward transaction of a block mined by `host`. */
  function Reward(host: string): Transaction
  {
    Transaction(MiningSender, host, "", MiningReward)
  }

  // ---------------------------------------------------------------------
  // Balance

  /** Balance of `sender`, or of the hosting node when no sender is given;
      no answer when neither is known. */
  function GetBalance(s: State, sender: Option<string>): (r: Option<int>)
    ensures r.None? <==> sender.None? && s.hostingNode.None?
    ensures sender.Some? ==> r == Some(Ledger(s.chain, s.openTransactions, sender.value))
    ensures sender.None? && s.hostingNode.Some? ==>
              r == Some(Ledger(s.chain, s.openTransactions, s.hostingNode.value))
  {
    if sender.None? then
      if s.hostingNode.None? then None
      else Some(ScanBalance(s.chain, s.openTransactions, s.hostingNode.value))
    else Some(ScanBalance(s.chain, s.openTransactions, sender.value))
  }

  // ---------------------------------------------------------------------
  // Admission of a transaction

  /** Admits `sender -> recipient` to the pending pool when the hosting
      node's balance covers the amount. A peer that declines the broadcast
      makes the call report failure after the pool has already grown. */
  function AddTransaction(s: State, recipient: string, sender: string, signature: string, amount: int,
                          isReceiving: bool, reply: string -> PeerReply): (r: (State, bool))
    requires s.hostingNode.Some?
    ensures var admitted := Ledger(s.chain, s.openTransactions, s.hostingNode.value) >= amount;
            && r.0 == s.(openTransactions := if admitted
                                             then s.openTransactions + [Transaction(sender, recipient, signature, amount)]
                                             else s.openTransactions)
            && (r.1 <==> admitted && (isReceiving || forall n :: n in s.peerNodes ==> !Declines(reply(n))))
  {
    var transaction := Transaction(sender, recipient, signature, amount);
    if VerifyTransaction(transaction, p => GetBalance(s, p)) then
      var s' := s.(openTransactions := s.openTransactions + [transaction]);
      if !isReceiving && exists n :: n in s.peerNodes && Declines(reply(n)) then (s', false)
      else (s', true)
    else (s, false)
  }

  /** Handed the node's own balance query, the funds check compares the
      amount with the hosting node's ledger balance. */
  lemma AdmissionUsesHostBalance(s: State, tx: Transaction)
    requires s.hostingNode.Some?
    ensures VerifyTransaction(tx, p => GetBalance(s, p))
        <==> Ledger(s.chain, s.openTransactions, s.hostingNode.value) >= tx.amount
  {
  }

  /** Admission never looks at who sends: two transactions that differ only
      in their sender are both admitted or both refused. */
  lemma AdmissionIgnoresSender(s: State, recipient: string, sender1: string, sender2: string, signature: string,
                               amount: int, isReceiving: bool, reply: string -> PeerReply)
    requires s.hostingNode.Some?
    ensures AddTransaction(s, recipient, sender1, signature, amount, isReceiving, reply).1
        <==> AddTransaction(s, recipient, sender2, signature, amount, isReceiving, reply).1
    ensures var pool1 := AddTransaction(s, recipient, sender1, signature, amount, isReceiving, reply).0.openTransactions;
            var pool2 := AddTransaction(s, recipient, sender2, signature, amount, isReceiving, reply).0.openTransactions;
            && |pool1| == |pool2|
            && AllButLast(pool1) == AllButLast(pool2)
            && (|pool1| > |s.openTransactions| ==> Last(pool1).(sender := sender2) == Last(pool2))
            && (|pool1| == |s.openTransactions| ==> pool1 == pool2)
  {
  }

  /** A pending transaction is debited from its sender at once but not yet
      credited to its recipient. */
  lemma {:induction false} AdmissionDebitsSenderOnly(s: State, recipient: string, sender: string, signature: string,
                                                     amount: int, isReceiving: bool, reply: string -> PeerReply, p: string)
    requires s.hostingNode.Some?
    requires Ledger(s.chain, s.openTransactions, s.hostingNode.value) >= amount
    ensures var s' := AddTransaction(s, recipient, sender, signature, amount, isReceiving, reply).0;
            Ledger(s'.chain, s'.openTransactions, p)
              == Ledger(s.chain, s.openTransactions, p) - (if p == sender then amount else 0)
  {
    var tx := Transaction(sender, recipient, signature, amount);
    var confirmed := Confirmed(s.chain);
    assert confirmed + (s.openTransactions + [tx]) == (confirmed + s.openTransactions) + [tx];
    TotalAppend(confirmed + s.openTransactions, [tx], p, Sender);
    assert [tx][1..] == [];
  }

  // ---------------------------------------------------------------------
  // Proof of work and mining

  /** `nonce` is the least non-negative number solving the puzzle. */
  predicate IsLeastNonce(o: Oracles, transactions: seq<Transaction>, lastHash: string, nonce: int)
  {
    && nonce >= 0
    && ValidPow(o, transactions, lastHash, nonce)
    && forall k :: 0 <= k < nonce ==> !ValidPow(o, transactions, lastHash, k)
  }

  /** Tries 0, 1, 2, ... against `solves` and returns the first success.
      The search terminates only because some success exists. */
  method LeastSolution(solves: nat -> bool) returns (n: nat)
    requires exists m: nat :: solves(m)
    ensures solves(n)
    ensures forall k: nat :: k < n ==> !solves(k)
  {
    ghost var bound: nat :| solves(bound);
    n := 0;
    while !solves(n)
      invariant n <= bound
      invariant forall k: nat :: k < n ==> !solves(k)
      decreases bound - n
    {
      n := n + 1;
    }
  }

  /** The search of the node, against the pending pool and the last block's hash. */
  method ProofOfWork(s: State, o: Oracles) returns (proof: nat)
    requires |s.chain| > 0
    requires exists n: nat :: ValidPow(o, s.openTransactions, o.hashBlock(Last(s.chain)), n)
    ensures IsLeastNonce(o, s.openTransactions, o.hashBlock(Last(s.chain)), proof)
  {
    var txs := s.openTransactions;
    var lastHash := o.hashBlock(Last(s.chain));
    var solves := (n: nat) => ValidPow(o, txs, lastHash, n);
    ghost var m: nat :| ValidPow(o, txs, lastHash, m);
    assert solves(m);
    proof := LeastSolution(solves);
    forall k | 0 <= k < proof
      ensures !ValidPow(o, txs, lastHash, k)
    {
      assert !solves(k);
    }
  }

  predicate AllSigned(o: Oracles, transactions: seq<Transaction>)
  {
    forall i :: 0 <= i < |transactions| ==> o.signatureOk(transactions[i])
  }

  /** Seals the pending pool with the given nonce and clock reading: one new
      block holding the pool and a reward, an empty pool, and the conflict flag
      raised by any peer answering 409 to the broadcast. */
  function MineWithProof(s: State, o: Oracles, proof: int, now: int, reply: string -> PeerReply): (r: (State, Option<Block>))
    requires |s.chain| > 0
    ensures s.hostingNode.None? || !AllSigned(o, s.openTransactions) ==> r == (s, None)
    ensures s.hostingNode.Some? && AllSigned(o, s.openTransactions) ==>
              && r.1.Some?
              && r.0.chain == s.chain + [r.1.value]
              && r.1.value.index == |s.chain|
              && r.1.value.previousHash == o.hashBlock(Last(s.chain))
              && |r.1.value.transactions| == |s.openTransactions| + 1
              && AllButLast(r.1.value.transactions) == s.openTransactions
              && Last(r.1.value.transactions) == Transaction(MiningSender, s.hostingNode.value, "", MiningReward)
              && r.1.value.proof == proof
              && r.1.value.timestamp == now
              && r.0.openTransactions == []
              && r.0.peerNodes == s.peerNodes
              && r.0.hostingNode == s.hostingNode
              && (r.0.resolveConflicts <==>
                    s.resolveConflicts || exists n :: n in s.peerNodes && reply(n) == Status(409))
  {
    if s.hostingNode.None? then (s, None)
    else
      var hashed := o.hashBlock(Last(s.chain));
      var copied := s.openTransactions;
      if exists i :: 0 <= i < |copied| && !o.signatureOk(copied[i]) then (s, None)
      else
        var block := Block(|s.chain|, hashed, copied + [Reward(s.hostingNode.value)], proof, now);
        var conflict := exists n :: n in s.peerNodes && reply(n) == Status(409);
        (s.(chain := s.chain + [block], openTransactions := [], resolveConflicts := s.resolveConflicts || conflict),
         Some(block))
  }

  /** A block mined with a nonce solving the pending pool's puzzle extends a
      verified chain to a verified chain. */
  lemma MinedChainVerified(s: State, o: Oracles, proof: int, now: int, reply: string -> PeerReply)
    requires |s.chain| > 0
    requires ChainVerified(o, s.chain)
    requires ValidPow(o, s.openTransactions, o.hashBlock(Last(s.chain)), proof)
    ensures ChainVerified(o, MineWithProof(s, o, proof, now, reply).0.chain)
  {
    var r := MineWithProof(s, o, proof, now, reply);
    if r.1.Some? {
      ChainVerifiedAppend(o, s.chain, r.1.value);
    }
  }

  /** Mining moves the pool onto the chain: everyone is credited what the
      pool paid them, the host gains the reward and the mining sentinel is
      debited it. */
  lemma MinedBalances(s: State, o: Oracles, proof: int, now: int, reply: string -> PeerReply, p: string)
    requires |s.chain| > 0
    requires s.hostingNode.Some? && AllSigned(o, s.openTransactions)
    ensures var s' := MineWithProof(s, o, proof, now, reply).0;
            Ledger(s'.chain, s'.openTransactions, p)
              == Ledger(s.chain, s.openTransactions, p)
                 + Total(s.openTransactions, p, Recipient)
                 + (if p == s.hostingNode.value then MiningReward else 0)
                 - (if p == MiningSender then MiningReward else 0)
  {
    var r := MineWithProof(s, o, proof, now, reply);
    var b := r.1.value;
    var reward := Reward(s.hostingNode.value);
    var confirmed := Confirmed(s.chain);
    assert b.transactions == s.openTransactions + [reward];
    ConfirmedAppend(s.chain, b);
    assert r.0.chain == s.chain + [b];
    assert confirmed + b.transactions == (confirmed + s.openTransactions) + [reward];
    assert (confirmed + b.transactions) + [] == confirmed + b.transactions;
    assert [reward][1..] == [];
    TotalAppend(confirmed + s.openTransactions, [reward], p, Sender);
    TotalAppend(confirmed, b.transactions, p, Recipient);
    TotalAppend(s.openTransactions, [reward], p, Recipient);
  }

  /** Mining as the node does it: no hosting node, no block; otherwise find the
      least nonce for the pool, then refuse the whole block if any pending
      transaction has a bad signature. */
  method MineBlock(s: State, o: Oracles, now: int, reply: string -> PeerReply) returns (s': State, mined: Option<Block>)
    requires |s.chain| > 0
    requires s.hostingNode.Some? ==> exists n: nat :: ValidPow(o, s.openTransactions, o.hashBlock(Last(s.chain)), n)
    ensures mined.None? <==> s.hostingNode.None? || !AllSigned(o, s.openTransactions)
    ensures mined.None? ==> s' == s
    ensures mined.Some? ==> IsLeastNonce(o, s.openTransactions, o.hashBlock(Last(s.chain)), mined.value.proof)
    ensures mined.Some? ==> (s', mined) == MineWithProof(s, o, mined.value.proof, now, reply)
    ensures |s'.chain| > 0
    ensures ChainVerified(o, s.chain) ==> ChainVerified(o, s'.chain)
  {
    if s.hostingNode.None? {
      return s, None;
    }
    var proof := ProofOfWork(s, o);
    var r := MineWithProof(s, o, proof, now, reply);
    if ChainVerified(o, s.chain) {
      MinedChainVerified(s, o, proof, now, reply);
    }
    s', mined := r.0, r.1;
  }

  // ---------------------------------------------------------------------
  // Ingestion of a peer block

  /** Accepts a peer block exactly when it extends the local tip, then drops
      from the pool every pending transaction the block carries. */
  method AddBlock(s: State, o: Oracles, block: Block) returns (s': State, ok: bool)
    requires |s.chain| > 0
    ensures ok <==> Extends(o, Last(s.chain), block)
    ensures !ok ==> s' == s
    ensures ok ==> s' == s.(chain := s.chain + [block],
                            openTransactions := Unmatched(s.openTransactions, block.transactions))
    ensures |s'.chain| > 0
    ensures ChainVerified(o, s.chain) ==> ChainVerified(o, s'.chain)
  {
    var transactions := block.transactions;
    var proofIsValid := ValidPow(o, AllButLast(transactions), block.previousHash, block.proof);
    var hashesMatch := o.hashBlock(Last(s.chain)) == block.previousHash;
    if !proofIsValid || !hashesMatch {
      return s, false;
    }
    var open := PurgeMatched(s.openTransactions, transactions);
    s' := s.(chain := s.chain + [block], openTransactions := open);
    ChainVerifiedAppend(o, s.chain, block);
    ok := true;
  }

  // ---------------------------------------------------------------------
  // Conflict resolution

  /** `peers[w]` is what the scan of the first `n` peer chains adopts: longer
      than the local chain, verified, at least as long as every verified peer
      chain among them, and strictly longer than every verified one before it. */
  predicate WinsAmong(o: Oracles, local: seq<Block>, peers: seq<seq<Block>>, n: int, w: int)
    requires 0 <= n <= |peers|
  {
    && 0 <= w < n
    && |peers[w]| > |local|
    && ChainVerified(o, peers[w])
    && (forall j :: 0 <= j < n && ChainVerified(o, peers[j]) ==> |peers[j]| <= |peers[w]|)
    && (forall j :: 0 <= j < w && ChainVerified(o, peers[j]) ==> |peers[j]| < |peers[w]|)
  }

  /** Longest-valid-chain rule over the chains fetched from the reachable
      registered peers, in the order they were fetched: at most one chain
      per peer. */
  method Resolve(s: State, o: Oracles, peerChains: seq<seq<Block>>) returns (s': State, replaced: bool)
    requires |peerChains| <= |s.peerNodes|
    ensures replaced ==> exists w :: WinsAmong(o, s.chain, peerChains, |peerChains|, w) && s'.chain == peerChains[w]
    ensures replaced ==> s' == s.(chain := s'.chain, openTransactions := [], resolveConflicts := false)
    ensures !replaced ==> s' == s.(resolveConflicts := false)
    ensures !replaced ==> forall j :: 0 <= j < |peerChains| && ChainVerified(o, peerChains[j]) ==> |peerChains[j]| <= |s.chain|
  {
    var winner := s.chain;
    replaced := false;
    ghost var w := -1;
    var i := 0;
    while i < |peerChains|
      invariant 0 <= i <= |peerChains|
      invariant !replaced ==> winner == s.chain
      invariant replaced ==> WinsAmong(o, s.chain, peerChains, i, w) && winner == peerChains[w]
      invariant |winner| >= |s.chain|
      invariant forall j :: 0 <= j < i && ChainVerified(o, peerChains[j]) ==> |peerChains[j]| <= |winner|
    {
      var nodeChain := peerChains[i];
      if |nodeChain| > |winner| {
        var verified := ChainVerification(o, nodeChain);
        if verified {
          winner := nodeChain;
          replaced := true;
          w := i;
        }
      }
      i := i + 1;
    }
    s' := s.(resolveConflicts := false, chain := winner);
    if replaced {
      s' := s'.(openTransactions := []);
    }
  }

  /** Some fetched chain is verified and longer than the local one exactly
      when the scan has a winner, so `Resolve` replaces the chain iff such a
      peer chain exists. */
  lemma {:induction false} WinnerExists(o: Oracles, local: seq<Block>, peers: seq<seq<Block>>, n: int)
    requires 0 <= n <= |peers|
    ensures (exists i :: 0 <= i < n && |peers[i]| > |local| && ChainVerified(o, peers[i]))
        <==> exists w :: WinsAmong(o, local, peers, n, w)
  {
    if n > 0 {
      var m := n - 1;
      WinnerExists(o, local, peers, m);
      var c := peers[m];
      if exists w :: WinsAmong(o, local, peers, m, w) {
        var w :| WinsAmong(o, local, peers, m, w);
        if ChainVerified(o, c) && |c| > |peers[w]| {
          assert WinsAmong(o, local, peers, n, m);
        } else {
          assert WinsAmong(o, local, peers, n, w);
        }
      } else if |c| > |local| && ChainVerified(o, c) {
        assert WinsAmong(o, local, peers, n, m);
      }
    }
  }

  /** A verified chain longer than `local` among `peers1` is also among any
      reordering `peers2` of them. */
  lemma LongerVerifiedSurvivesReorder(o: Oracles, local: seq<Block>, peers1: seq<seq<Block>>, peers2: seq<seq<Block>>)
    requires multiset(peers1) == multiset(peers2)
    ensures (exists i :: 0 <= i < |peers1| && |peers1[i]| > |local| && ChainVerified(o, peers1[i]))
        ==> (exists j :: 0 <= j < |peers2| && |peers2[j]| > |local| && ChainVerified(o, peers2[j]))
  {
    if exists i :: 0 <= i < |peers1| && |peers1[i]| > |local| && ChainVerified(o, peers1[i]) {
      var i :| 0 <= i < |peers1| && |peers1[i]| > |local| && ChainVerified(o, peers1[i]);
      assert peers1[i] in multiset(peers2);
      var j :| 0 <= j < |peers2| && peers2[j] == peers1[i];
    }
  }

  /** The outcome of the rule does not depend on the order in which the peer
      chains are scanned: either both orders replace the local chain or
      neither does, and when both do, they adopt chains of the same length. */
  lemma {:induction false} WinnerLengthIndependentOfOrder(o: Oracles, local: seq<Block>, peers1: seq<seq<Block>>,
                                                          peers2: seq<seq<Block>>)
    requires multiset(peers1) == multiset(peers2)
    ensures (exists w :: WinsAmong(o, local, peers1, |peers1|, w))
        <==> (exists w :: WinsAmong(o, local, peers2, |peers2|, w))
    ensures forall w1, w2 :: WinsAmong(o, local, peers1, |peers1|, w1) && WinsAmong(o, local, peers2, |peers2|, w2)
                           ==> |peers1[w1]| == |peers2[w2]|
  {
    WinnerExists(o, local, peers1, |peers1|);
    WinnerExists(o, local, peers2, |peers2|);
    LongerVerifiedSurvivesReorder(o, local, peers1, peers2);
    LongerVerifiedSurvivesReorder(o, local, peers2, peers1);
    forall w1, w2 | WinsAmong(o, local, peers1, |peers1|, w1) && WinsAmong(o, local, peers2, |peers2|, w2)
      ensures |peers1[w1]| == |peers2[w2]|
    {
      assert peers1[w1] in multiset(peers2);
      assert peers2[w2] in multiset(peers1);
    }
  }

  // ---------------------------------------------------------------------
  // Peer registry

  function AddPeerNode(s: State, node: string): (r: State)
    ensures node in r.peerNodes
    ensures forall n :: n != node ==> (n in r.peerNodes <==> n in s.peerNodes)
    ensures r.(peerNodes := s.peerNodes) == s
  {
    s.(peerNodes := s.peerNodes + {node})
  }

  function RemovePeerNode(s: State, node: string): (r: State)
    ensures node !in r.peerNodes
    ensures forall n :: n != node ==> (n in r.peerNodes <==> n in s.peerNodes)
    ensures r.(peerNodes := s.peerNodes) == s
  {
    s.(peerNodes := s.peerNodes - {node})
  }

  /** Removing a node just added restores the registry; adding twice is adding once. */
  lemma PeerRegistryRoundTrip(s: State, node: string)
    ensures node !in s.peerNodes ==> RemovePeerNode(AddPeerNode(s, node), node) == s
    ensures AddPeerNode(AddPeerNode(s, node), node) == AddPeerNode(s, node)
  {
    if node !in s.peerNodes {
      assert RemovePeerNode(AddPeerNode(s, node), node).peerNodes == s.peerNodes;
    }
  }
}
