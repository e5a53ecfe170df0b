# Proof-of-work ledger node, modelled in Dafny

This project models the ledger engine of a small proof-of-work blockchain node.
The node's state is one immutable value, `Blockchain.State`. It holds:

- the chain of blocks;
- the pool of open (pending) transactions;
- the set of peer node addresses;
- the optional hosting node identity;
- the `resolveConflicts` flag.

Every operation of the node is a transition over that value:

- the balance query;
- admission of a transaction to the pool;
- the proof-of-work search;
- mining a block;
- ingesting a peer's block, with its purge of the pool;
- conflict resolution under the longest-valid-chain rule;
- adding and removing peers.

The validity checks come from the node's `Verification` class:

- the proof-of-work predicate;
- whole-chain verification;
- the funds check.

Hashing, the text rendering of transactions and the wallet's signature check
live in modules outside this model. They are the fields of `Records.Oracles`.
Every theorem here holds for every choice of those functions, and nothing is
claimed about collisions.

Files and modules:

- `records.dfy` (`Records`): transactions, blocks, the genesis block, the
  oracles, Python's `s[:-1]` and `str(int)`.
- `verification.dfy` (`Verification`): `valid_POW`, `chain_verification`,
  `verify_transaction`, and the lemmas about chain verification.
- `balance.dfy` (`Balance`): the node's per-block balance scan. It is proved
  equal to a flat reference ledger.
- `pool.dfy` (`Pool`): the nested purge loop of `add_block`. It is proved
  equal to a filter that keeps order.
- `blockchain.dfy` (`Blockchain`): the state and its operations.
- `scenarios.dfy` (`Scenarios`): concrete runs from a fresh node hosted by "A".

Behaviour worth knowing, and kept as the code has it:

- A balance counts pending transactions only on the sending side. A pending
  payment is debited from its sender at once, but its recipient is credited
  only when it is mined (`AdmissionDebitsSenderOnly`).
- The funds check calls the balance callback with no argument. So it tests the
  hosting node's balance, not the sender's (`AdmissionIgnoresSender`,
  `RelayedOverdraftAdmitted`). The comment above `verify_transaction`
  (verification.py:19) says the check is based on the sender's balance, but
  line 22 calls `get_balance()` with no participant. The model follows line 22.
- `add_transaction` does not check signatures. Signatures are checked only
  when mining. One bad signature in the pool stops the whole block.
- If a peer declines a broadcast transaction with status 400 or 500,
  `add_transaction` reports failure. The transaction stays in the pool anyway.
- Neither `add_block` nor `chain_verification` looks at a block's `index`.
- The proof-of-work puzzle leaves out a block's last transaction. When mining,
  that is the reward (`PowIgnoresReward`).

## Model

| member | source | states |
|---|---|---|
| `Blockchain.Init` | blockchain.py:14-25 | A fresh node holds the genesis block (index 0, empty previous hash, no transactions, proof 100, time 0) and nothing else. Its pool and peer registry are empty and its flag is clear. The chain passes verification under any hashing, and every participant's balance is 0. |
| `Blockchain.GetBalance` | blockchain.py:85-102 | With no sender and no hosting node the answer is None. Otherwise it is the reference ledger of the given sender, or of the hosting node when no sender is given. |
| `Balance.ScanBalance` | blockchain.py:93-102 | The node's scan equals received-on-chain minus sent-on-chain-and-in-pool. The scan builds per-block amount lists, adds the pool's sent list, and folds with `reduce`. |
| `Balance.ScanMatchesLedger` | blockchain.py:93-102 | The two `reduce` folds over per-block lists, subtracted, equal the flat reference ledger. |
| `Balance.ReduceSums` | blockchain.py:98 | The `reduce` with its empty-list branch adds the sum of every inner list to the start value. |
| `Balance.PerBlockTotal` | blockchain.py:93-94 | The per-block amount lists of a chain add up to the flat total over all of its transactions. |
| `Balance.StrangerHasZeroBalance` | blockchain.py:93-102 | A participant who sends and receives nothing on the chain or in the pool has balance 0. |
| `Blockchain.AddTransaction` | blockchain.py:113-140 | The pool grows by exactly the new transaction iff the hosting node's ledger balance is at least the amount; otherwise nothing changes. The call reports success iff the transaction was admitted and either it is a relayed one or no peer declines with 400/500. A decline happens after the pool has grown. |
| `Blockchain.AdmissionIgnoresSender` | blockchain.py:124-127 | Two transactions that differ only in their sender get the same admission verdict. The two resulting pools have the same length and agree on every entry but the last. When the transaction is admitted, the last entries differ only in their sender. When it is refused, the pools are equal. |
| `Blockchain.AdmissionDebitsSenderOnly` | blockchain.py:95-101 | After admission, the sender's balance drops by the amount, and no other participant's balance changes. This includes the recipient. |
| `Blockchain.AdmissionUsesHostBalance` | verification.py:21-23 | `Verification.VerifyTransaction` models `verify_transaction`: it compares the amount with the callback's answer for no participant. Given the node's balance query as that callback, the funds check holds iff the hosting node's ledger balance is at least the amount. |
| `Blockchain.LeastSolution` | blockchain.py:77-79 | The counting loop returns a nonce that passes the test, and no smaller non-negative nonce passes it. |
| `Blockchain.ProofOfWork` | blockchain.py:74-80 | Returns the least non-negative nonce solving the puzzle for the pool and the hash of the last block. |
| `Blockchain.MineWithProof` | blockchain.py:144-177 | No hosting node, or any unsigned pending transaction, means no block and an unchanged state. Otherwise it appends one block: index equal to the old length, previous hash equal to the hash of the old last block. The block holds the old pool followed by the reward ('MINING', host, '', 10). The pool is emptied, peers and host are kept, and the flag is raised iff it was set or some peer answered 409. |
| `Blockchain.MineBlock` | blockchain.py:144-158 | Gives no block, and leaves the state unchanged, exactly when there is no hosting node or some pending signature fails. A mined block carries the least solving nonce. A verified chain stays verified. |
| `Blockchain.MinedChainVerified` | blockchain.py:149-161 | Sealing the pool with a nonce that solves its puzzle keeps a verified chain verified. |
| `Blockchain.MinedBalances` | blockchain.py:151-162 | After mining, each participant's balance grows by what the pool paid them. The host also gains the reward, and the 'MINING' sentinel is debited it. |
| `Blockchain.AddBlock` | blockchain.py:181-198 | A peer block is accepted iff its previous hash equals the hash of the local tip and its proof solves the puzzle over all but its last transaction. If rejected, nothing changes. If accepted, the chain gains exactly that block, the pool keeps exactly the unmatched transactions, and a verified chain stays verified. |
| `Pool.PurgeMatched` | blockchain.py:189-196 | The nested loop over incoming transactions and a pool snapshot, removing equal entries, leaves exactly `Unmatched(pool, incoming)`. |
| `Pool.RemoveMatching` | blockchain.py:191-196 | One pass of the inner loop removes, in order, as many occurrences of the incoming transaction as the snapshot holds. |
| `Pool.RemoveFirstCounts` | blockchain.py:193-196 | `list.remove` with its ValueError swallowed: the multiset loses one copy of the element, and a missing element leaves the list unchanged. |
| `Pool.UnmatchedMembers` | blockchain.py:189-196 | A transaction survives iff it was pending and no incoming transaction equals it; the result is never longer. |
| `Pool.UnmatchedAppend` | blockchain.py:189-196 | The purge distributes over concatenation, so the survivors keep their relative order. |
| `Pool.UnmatchedCounts` | blockchain.py:189-196 | A matched transaction has no copies left. An unmatched one keeps all its copies. |
| `Blockchain.Resolve` | blockchain.py:201-223 | At most one fetched chain per registered peer. On replacement, the adopted chain is the winner of the scan: longer than the local chain, verified, at least as long as every verified peer chain, and strictly longer than every verified chain fetched before it. The pool is emptied and the flag cleared, and nothing else changes. Without replacement, only the flag is cleared, and no verified peer chain is longer than the local one. |
| `Blockchain.WinnerExists` | blockchain.py:205-215 | The scan has a winner iff some fetched chain is verified and longer than the local one. With `Resolve`, this makes replacement an if-and-only-if. |
| `Blockchain.WinnerLengthIndependentOfOrder` | blockchain.py:205-215 | Scanning the same peer chains in two different orders, either both scans replace the local chain or neither does. When both do, the adopted chains have the same length. |
| `Blockchain.LongerVerifiedSurvivesReorder` | blockchain.py:205-215 | A verified peer chain longer than the local one is still present after the peer chains are reordered. |
| `Blockchain.AddPeerNode` | blockchain.py:226-229 | The node is in the registry afterwards. Membership of every other address and every other field are unchanged. |
| `Blockchain.RemovePeerNode` | blockchain.py:231-234 | The node is absent afterwards, even if it was never there. Membership of every other address and every other field are unchanged. |
| `Blockchain.PeerRegistryRoundTrip` | blockchain.py:226-234 | Removing a node that was just added restores the state. Adding twice is the same as adding once. |
| `Verification.ValidPowMeaning` | verification.py:28-31 | The puzzle holds iff the digest of rendered transactions ++ previous hash ++ decimal nonce has at least two characters and both are '0'. |
| `Verification.Prefix` | verification.py:31 | Python's `s[0:k]`: its length is the smaller of k and the length of s, and it agrees with s position by position. |
| `Records.AllButLast` | verification.py:13 | Python's `s[:-1]`: it rebuilds s when the last element is put back, and it is empty for an empty list. |
| `Verification.ChainVerification` | verification.py:6-16 | The oldest-first scan returns true iff every block after index 0 names its predecessor's hash and solves its own puzzle. Chains of length 0 or 1 always pass. |
| `Verification.ChainVerifiedPrefix` | verification.py:8-16 | Every prefix of a verified chain is verified. |
| `Verification.ChainVerifiedAppend` | verification.py:8-16 | A non-empty chain plus one block is verified iff the chain is verified and the block extends its last block. |
| `Verification.PowIgnoresReward` | verification.py:13 | Changing a block's last transaction does not change whether its puzzle holds. |
| `Scenarios.MineFromGenesis` | blockchain.py:144-162 | From the genesis chain, host "A" mining with an empty pool gives a chain of length 2. Block 1 holds only MINING -> A of 10, and the balance of A is 10. |
| `Scenarios.FreshLedgerIsZero` | blockchain.py:16-20 | On the genesis chain with an empty pool, every participant's balance is 0. |
| `Scenarios.RejectedWithoutFunds` | blockchain.py:124-140 | On a fresh chain, "A" sending 5 is refused and the state is unchanged. |
| `Scenarios.RelayedOverdraftAdmitted` | verification.py:21-23 | Once host "A" has mined, a relayed 5 from "B" is admitted, although "B" owns 0. |

## Left out

- Persistence: `load_data` and `save_data` (blockchain.py:35-71) are file I/O and JSON encoding. The node calls `save_data` after every change. `Blockchain.Init` is the state before anything is loaded.
- HTTP transport: the reply of each peer to a broadcast is the parameter `reply`. For `resolve`, the input is the sequence of chains fetched from the reachable registered peers, in scan order, so there are at most as many as there are peers. Unreachable peers are simply absent.
- Blockchain.AddTransaction: does not model that the broadcast loop stops at the first declining peer, so later peers get no request. This has no effect on the state.
- Exceptions other than a refused connection: the source catches only `requests.exceptions.ConnectionError` (blockchain.py:137, 175, 216). Any other exception from the transport escapes and stops the operation partway. Examples are a non-JSON body making `response.json()` raise (blockchain.py:209), or a malformed registered address. The model does not represent that case. In it, `add_transaction` has already grown and saved the pool, and `resolve` returns before clearing the flag (blockchain.py:218). `Blockchain.Resolve` always clears it.
- An empty chain: `ProofOfWork`, `MineWithProof`, `MineBlock` and `AddBlock` require a non-empty chain. On an empty chain the source raises IndexError at `self.__chain[-1]` (blockchain.py:75, 147, 184). A node starts with the genesis block, and only a loaded file whose chain list is empty (blockchain.py:40-46) can produce that state.
- Printed messages (for example "Block declined, needs resolving") have no effect on the state and are not modelled.
- Hashing (`hash_block`, `hash_string_256` with the `.encode()` before it), `Transaction.to_ordered_dict` with its `str` rendering, and `Wallet.verify_transaction` are in modules that are not part of this model. They are uninterpreted oracle parameters, so no tamper-detection or collision property is claimed.
- Decoding of peer data: blocks and transactions arrive already typed. The KeyError that a malformed dictionary would raise is not modelled.
- Blockchain.ProofOfWork: requires that some nonce solves the puzzle, and so does `Blockchain.LeastSolution`. When no nonce solves it, the search in the source never ends. That case is excluded rather than modelled.
- Blockchain.MineBlock: requires, when a hosting node is set, that some nonce solves the puzzle. The reason is the same as for `ProofOfWork`.
- Blockchain.AddTransaction: requires a hosting node. Without one, the source compares None with a number and raises TypeError.
- Timestamps: the wall clock read when a block is created is the parameter `now`. The genesis timestamp is 0.
- Amounts are integers. The node uses floats, including a default amount of 1.0.
- `Verification.verify_transactions` (verification.py:35-37) is not modelled. It passes a number where a callback is expected, and nothing calls it.
- `get_last_transaction_amount` (blockchain.py:105-110) is not modelled. Neither are the copy getters `get_chain`, `get_open_transactions` and `get_peer_nodes`: each is a field of `State`.
- Concurrency, and the node identifier that names the storage file, are not modelled.
