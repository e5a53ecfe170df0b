/** The pending-pool purge run when a peer block is accepted: every pending
    transaction equal to one carried by the block leaves the pool, the rest
    keep their order. */
module Pool {
  import opened Records

  /** Reference definition: the pending transactions that no incoming
      transaction matches, in their original order. */
  function Unmatched(pool: seq<Transaction>, incoming: seq<Transaction>): seq<Transaction>
  {
    if |pool| == 0 then []
    else (if pool[0] in incoming then [] else [pool[0]]) + Unmatched(pool[1..], incoming)
  }

  /** `list.remove(x)` with the "already removed" error swallowed: drops the
      first element equal to `x`, or nothing when there is none. */
  function RemoveFirst(s: seq<Transaction>, x: Transaction): seq<Transaction>
  {
    if |s| == 0 then []
    else if s[0] == x then s[1..]
    else [s[0]] + RemoveFirst(s[1..], x)
  }

  /** Number of occurrences of `x` in `s`. */
  function Count(s: seq<Transaction>, x: Transaction): nat
  {
    if |s| == 0 then 0 else (if s[0] == x then 1 else 0) + Count(s[1..], x)
  }

  /** `s` without its first `k` occurrences of `x`. */
  function DropFirst(s: seq<Transaction>, x: Transaction, k: nat): seq<Transaction>
  {
    if |s| == 0 then []
    else if s[0] == x && k > 0 then DropFirst(s[1..], x, k - 1)
    else [s[0]] + DropFirst(s[1..], x, k)
  }

  /** The inner loop of the node for one incoming transaction `itx`: walk the
      snapshot `stored` and remove from `open` each entry equal to `itx`. */
  method RemoveMatching(open: seq<Transaction>, stored: seq<Transaction>, itx: Transaction) returns (r: seq<Transaction>)
    ensures r == DropFirst(open, itx, Count(stored, itx))
  {
    r := open;
    DropNone(open, itx);
    var j := 0;
    while j < |stored|
      invariant 0 <= j <= |stored|
      invariant r == DropFirst(open, itx, Count(stored[..j], itx))
    {
      ghost var k := Count(stored[..j], itx);
      var opentx := stored[j];
      assert stored[..j + 1] == stored[..j] + [opentx];
      CountSnoc(stored[..j], opentx, itx);
      if opentx == itx {
        RemoveFirstDrops(open, itx, k);
        r := RemoveFirst(r, opentx);
      }
      j := j + 1;
    }
    assert stored[..j] == stored;
  }

  /** The loop of the node: for each incoming transaction, walk a snapshot of
      the pool and remove every pending transaction equal to it. */
  method PurgeMatched(pool: seq<Transaction>, incoming: seq<Transaction>) returns (open: seq<Transaction>)
    ensures open == Unmatched(pool, incoming)
  {
    open := pool;
    var stored := pool;
    UnmatchedNone(pool, []);
    var i := 0;
    while i < |incoming|
      invariant 0 <= i <= |incoming|
      invariant open == Unmatched(pool, incoming[..i])
    {
      var itx := incoming[i];
      ghost var done := incoming[..i];
      open := RemoveMatching(open, stored, itx);
      PurgeStep(pool, done, itx);
      assert incoming[..i + 1] == done + [itx];
      i := i + 1;
    }
    assert incoming[..i] == incoming;
  }

  // ---------------------------------------------------------------------
  // Lemmas

  /** One round of the outer loop extends the matched prefix by one transaction. */
  lemma PurgeStep(pool: seq<Transaction>, done: seq<Transaction>, itx: Transaction)
    ensures DropFirst(Unmatched(pool, done), itx, Count(pool, itx)) == Unmatched(pool, done + [itx])
  {
    CountUnmatched(pool, done, itx);
    DropAll(Unmatched(pool, done), itx, Count(pool, itx));
    UnmatchedStep(pool, done, itx);
  }

  /** A transaction survives the purge iff it was pending and nothing
      incoming equals it; the pool never grows. */
  lemma {:induction false} UnmatchedMembers(pool: seq<Transaction>, incoming: seq<Transaction>)
    ensures forall t :: t in Unmatched(pool, incoming) <==> t in pool && t !in incoming
    ensures |Unmatched(pool, incoming)| <= |pool|
  {
    if |pool| > 0 {
      UnmatchedMembers(pool[1..], incoming);
      assert pool == [pool[0]] + pool[1..];
    }
  }

  /** `RemoveFirst` takes away one copy of `x` when there is one, and
      nothing otherwise. */
  lemma {:induction false} RemoveFirstCounts(s: seq<Transaction>, x: Transaction)
    ensures multiset(RemoveFirst(s, x)) == multiset(s) - multiset{x}
    ensures x !in s ==> RemoveFirst(s, x) == s
  {
    if |s| > 0 {
      assert s == [s[0]] + s[1..];
      RemoveFirstCounts(s[1..], x);
    }
  }

  /** Purging commutes with concatenation, so survivors keep their relative order. */
  lemma {:induction false} UnmatchedAppend(a: seq<Transaction>, b: seq<Transaction>, incoming: seq<Transaction>)
    ensures Unmatched(a + b, incoming) == Unmatched(a, incoming) + Unmatched(b, incoming)
  {
    if |a| == 0 {
      assert a + b == b;
    } else {
      assert (a + b)[1..] == a[1..] + b;
      UnmatchedAppend(a[1..], b, incoming);
    }
  }

  /** Nothing is removed when nothing matches. */
  lemma {:induction false} UnmatchedNone(pool: seq<Transaction>, incoming: seq<Transaction>)
    requires forall t :: t in pool ==> t !in incoming
    ensures Unmatched(pool, incoming) == pool
  {
    if |pool| > 0 {
      assert pool[0] in pool;
      UnmatchedNone(pool[1..], incoming);
    }
  }

  /** Each pending transaction survives at most as often as it was pending,
      and not at all when it matches. */
  lemma {:induction false} UnmatchedCounts(pool: seq<Transaction>, incoming: seq<Transaction>, t: Transaction)
    ensures multiset(Unmatched(pool, incoming))[t] == if t in incoming then 0 else multiset(pool)[t]
  {
    if |pool| > 0 {
      assert pool == [pool[0]] + pool[1..];
      UnmatchedCounts(pool[1..], incoming, t);
    }
  }

  lemma {:induction false} DropNone(s: seq<Transaction>, x: Transaction)
    ensures DropFirst(s, x, 0) == s
  {
    if |s| > 0 {
      DropNone(s[1..], x);
    }
  }

  lemma {:induction false} RemoveFirstDrops(s: seq<Transaction>, x: Transaction, k: nat)
    ensures RemoveFirst(DropFirst(s, x, k), x) == DropFirst(s, x, k + 1)
  {
    if |s| > 0 {
      if s[0] == x && k > 0 {
        RemoveFirstDrops(s[1..], x, k - 1);
      } else if s[0] != x {
        RemoveFirstDrops(s[1..], x, k);
      }
    }
  }

  /** Dropping at least as many occurrences as there are removes them all. */
  lemma {:induction false} DropAll(s: seq<Transaction>, x: Transaction, k: nat)
    requires Count(s, x) <= k
    ensures DropFirst(s, x, k) == Unmatched(s, [x])
  {
    if |s| > 0 {
      if s[0] == x {
        DropAll(s[1..], x, k - 1);
      } else {
        DropAll(s[1..], x, k);
      }
    }
  }

  lemma {:induction false} CountUnmatched(pool: seq<Transaction>, incoming: seq<Transaction>, x: Transaction)
    ensures Count(Unmatched(pool, incoming), x) <= Count(pool, x)
  {
    if |pool| > 0 {
      CountUnmatched(pool[1..], incoming, x);
      var head := if pool[0] in incoming then [] else [pool[0]];
      CountAppend(head, Unmatched(pool[1..], incoming), x);
    }
  }

  lemma {:induction false} CountAppend(a: seq<Transaction>, b: seq<Transaction>, x: Transaction)
    ensures Count(a + b, x) == Count(a, x) + Count(b, x)
  {
    if |a| == 0 {
      assert a + b == b;
    } else {
      assert (a + b)[1..] == a[1..] + b;
      CountAppend(a[1..], b, x);
    }
  }

  lemma CountSnoc(s: seq<Transaction>, y: Transaction, x: Transaction)
    ensures Count(s + [y], x) == Count(s, x) + (if y == x then 1 else 0)
  {
    CountAppend(s, [y], x);
    assert [y][1..] == [];
  }

  lemma {:induction false} UnmatchedStep(pool: seq<Transaction>, incoming: seq<Transaction>, x: Transaction)
    ensures Unmatched(Unmatched(pool, incoming), [x]) == Unmatched(pool, incoming + [x])
  {
    if |pool| > 0 {
      UnmatchedStep(pool[1..], incoming, x);
      var head := if pool[0] in incoming then [] else [pool[0]];
      UnmatchedAppend(head, Unmatched(pool[1..], incoming), [x]);
      if pool[0] !in incoming {
        assert Unmatched(head, [x]) == (if pool[0] in [x] then [] else [pool[0]]) + Unmatched([], [x]);
      } else {
        assert head == [];
      }
    }
  }
}
