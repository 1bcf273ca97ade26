/**
 Runs of the two expiry workers: what every commit point keeps, where every complete
 run ends whatever the batches, ties and interleaving, and when hold expiry stops.
 */
module CreditExpiry {
  import opened Wrappers
  import opened Instants
  import opened Sums
  import opened CreditStore

  // ----- totals of a batch -----

  lemma {:induction false} TakenBounds(s: Store, now: Instant, batch: seq<nat>, s': Store, k: Key)
    requires CreditBatch(s, now, batch, s')
    requires forall i :: i in batch ==> i < |s.blocks| && BlockDue(s.blocks[i], now)
    ensures Taken(s, s', k, now) >= 0
    ensures Remaining(s'.blocks, k) == Remaining(s.blocks, k) - Taken(s, s', k, now)
  {
    var parts, parts' := ExpiringParts(s.blocks, k, now), ExpiringParts(s'.blocks, k, now);
    var rest, rest' := RemainingParts(s.blocks, k), RemainingParts(s'.blocks, k);
    SumDifference(parts, parts', rest, rest');
  }

  /** Two tables that shrink by the same amounts, position by position, shrink by the same total. */
  lemma {:induction false} SumDifference(a: seq<int>, a': seq<int>, b: seq<int>, b': seq<int>)
    requires |a| == |a'| == |b| == |b'|
    requires forall i :: 0 <= i < |a| ==> a[i] - a'[i] == b[i] - b'[i] >= 0
    ensures Sum(a) - Sum(a') == Sum(b) - Sum(b') >= 0
  {
    if a != [] {
      var n := |a| - 1;
      SumDifference(a[..n], a'[..n], b[..n], b'[..n]);
    }
  }

  lemma FreedBounds(s: Store, now: Instant, batch: seq<nat>, s': Store, k: Key)
    requires HoldBatch(s, now, batch, s')
    ensures Freed(s, s', k, now) >= 0
  {
    var parts, parts' := ReleasingParts(s.transactions, k, now), ReleasingParts(s'.transactions, k, now);
    SumDifference(parts, parts', parts, parts');
  }

  // ----- what every commit point keeps -----

  /** A sequence with one non-zero element sums to it. */
  lemma SumSingle(parts: seq<int>, i: nat)
    requires i < |parts|
    requires forall j :: 0 <= j < |parts| && j != i ==> parts[j] == 0
    ensures Sum(parts) == parts[i]
  {
    SumZero(parts[i := 0]);
    SumUpdate(parts, i, 0);
  }

  lemma LedgerAppend(ts: seq<Transaction>, posted: seq<Transaction>, k: Key)
    ensures Ledger(ts + posted, k) == Ledger(ts, k) + Ledger(posted, k)
  {
    assert AmountParts(ts + posted, k) == AmountParts(ts, k) + AmountParts(posted, k);
    SumConcat(AmountParts(ts, k), AmountParts(posted, k));
  }

  lemma LedgerSingle(posted: seq<Transaction>, i: nat)
    requires i < |posted|
    requires forall j :: 0 <= j < |posted| && j != i ==> posted[j].key != posted[i].key
    ensures Ledger(posted, posted[i].key) == posted[i].amount
  {
    SumSingle(AmountParts(posted, posted[i].key), i);
  }

  /** The new ledger rows of one key sum to what the batch took from it. */
  lemma PostingsSum(s: Store, now: Instant, s': Store, posted: seq<Transaction>, k: Key)
    requires Postings(s, s', posted, now)
    ensures Ledger(posted, k) == -Taken(s, s', k, now)
  {
    if i :| 0 <= i < |posted| && posted[i].key == k {
      assert Posts(s, s', posted[i], now);
      LedgerSingle(posted, i);
    } else {
      SumZero(AmountParts(posted, k));
    }
  }

  /**
   At every commit point of credit expiry: ledger sum minus block remainders is unchanged
   for every user and type, each new ledger row carries the balance it left, and balance
   minus remainders is unchanged too when the balance covers what expired.
   */
  lemma CreditBatchConserves(s: Store, now: Instant, batch: seq<nat>, s': Store, k: Key)
    requires CreditBatch(s, now, batch, s')
    requires forall i :: i in batch ==> i < |s.blocks| && BlockDue(s.blocks[i], now)
    ensures Ledger(s'.transactions, k) - Remaining(s'.blocks, k) == Ledger(s.transactions, k) - Remaining(s.blocks, k)
    ensures forall i :: |s.transactions| <= i < |s'.transactions| ==>
              s'.transactions[i].balanceAfter == Some(BalanceOf(s'.balances, s'.transactions[i].key))
    ensures BalanceOf(s.balances, k) >= Taken(s, s', k, now) ==>
              BalanceOf(s'.balances, k) - Remaining(s'.blocks, k) == BalanceOf(s.balances, k) - Remaining(s.blocks, k)
  {
    TakenBounds(s, now, batch, s', k);
    var posted := s'.transactions[|s.transactions|..];
    PostingsSum(s, now, s', posted, k);
    assert s'.transactions == s.transactions + posted;
    LedgerAppend(s.transactions, posted, k);
    forall i | |s.transactions| <= i < |s'.transactions|
      ensures s'.transactions[i].balanceAfter == Some(BalanceOf(s'.balances, s'.transactions[i].key))
    {
      assert Posts(s, s', posted[i - |s.transactions|], now);
    }
    assert CreditSettles(s, s', k, now);
  }

  function HeldParts(ts: seq<Transaction>, k: Key): seq<int> {
    seq(|ts|, i requires 0 <= i < |ts| =>
      if ts[i].key == k && ts[i].kind == Hold && ts[i].status == Active && ts[i].authorized.Some?
      then ts[i].authorized.value else 0)
  }

  /** Authorizations of the active holds of a user and type. */
  function ActiveHolds(ts: seq<Transaction>, k: Key): int {
    Sum(HeldParts(ts, k))
  }

  predicate HoldsWellFormed(ts: seq<Transaction>) {
    forall i :: 0 <= i < |ts| && ts[i].kind == Hold && ts[i].status == Active ==> WellFormed(ts[i])
  }

  /**
   If the held balance of a user and type is the sum of its well-formed active holds, a
   hold-expiry batch keeps it so, never meets the floor of zero, and raises the spendable
   balance minus held by exactly what it released.
   */
  lemma HoldBatchConserves(s: Store, now: Instant, batch: seq<nat>, s': Store, k: Key)
    requires HoldBatch(s, now, batch, s')
    requires forall i :: i in batch ==> i < |s.transactions| && HoldDue(s.transactions[i], now)
    requires HoldsWellFormed(s.transactions)
    requires HeldOf(s.balances, k) == ActiveHolds(s.transactions, k)
    ensures HoldsWellFormed(s'.transactions)
    ensures HeldOf(s'.balances, k) == ActiveHolds(s'.transactions, k)
    ensures HeldOf(s'.balances, k) == HeldOf(s.balances, k) - Freed(s, s', k, now) >= 0
    ensures BalanceOf(s'.balances, k) - HeldOf(s'.balances, k) ==
            BalanceOf(s.balances, k) - HeldOf(s.balances, k) + Freed(s, s', k, now)
  {
    SumDifference(ReleasingParts(s.transactions, k, now), ReleasingParts(s'.transactions, k, now),
                  HeldParts(s.transactions, k), HeldParts(s'.transactions, k));
    SumBounds(HeldParts(s'.transactions, k));
    assert HoldSettles(s, s', k, now);
  }

  // ----- complete runs -----

  ghost predicate CreditStepBy(s: Store, now: Instant, batch: seq<nat>, s': Store) {
    (forall i :: i in batch ==> i < |s.blocks| && BlockDue(s.blocks[i], now)) && CreditBatch(s, now, batch, s')
  }

  ghost predicate HoldStepBy(s: Store, now: Instant, batch: seq<nat>, s': Store) {
    (forall i :: i in batch ==> i < |s.transactions| && HoldDue(s.transactions[i], now)) && HoldBatch(s, now, batch, s')
  }

  /** One committed batch of either worker, each with its own time of start. */
  ghost predicate Step(s: Store, creditNow: Instant, holdNow: Instant, s': Store) {
    || (exists batch: seq<nat> :: CreditStepBy(s, creditNow, batch, s'))
    || (exists batch: seq<nat> :: HoldStepBy(s, holdNow, batch, s'))
  }

  /** Where a run from s0 can have got to: every row either untouched or expired, every amount deducted by what is gone. */
  ghost predicate Reached(s0: Store, creditNow: Instant, holdNow: Instant, s: Store) {
    && |s.blocks| == |s0.blocks|
    && (forall i :: 0 <= i < |s.blocks| ==>
          s.blocks[i] == s0.blocks[i] || (BlockDue(s0.blocks[i], creditNow) && s.blocks[i] == Zeroed(s0.blocks[i])))
    && |s0.transactions| <= |s.transactions|
    && (forall i :: 0 <= i < |s0.transactions| ==>
          || s.transactions[i] == s0.transactions[i]
          || (Releasable(s0.transactions[i], holdNow) && s.transactions[i] == s0.transactions[i].(status := Expired)))
    && (forall i :: |s0.transactions| <= i < |s.transactions| ==> s.transactions[i].kind != Hold)
    && (forall k :: Deducted(s0, creditNow, holdNow, s, k))
  }

  ghost predicate Deducted(s0: Store, creditNow: Instant, holdNow: Instant, s: Store, k: Key) {
    && Taken(s0, s, k, creditNow) >= 0 && Freed(s0, s, k, holdNow) >= 0
    && BalanceOf(s.balances, k) == Deduct(BalanceOf(s0.balances, k), Taken(s0, s, k, creditNow))
    && HeldOf(s.balances, k) == Deduct(HeldOf(s0.balances, k), Freed(s0, s, k, holdNow))
  }

  /** Ledger rows do not count as holds. */
  lemma ReleasingIgnoresPostings(ts: seq<Transaction>, posted: seq<Transaction>, k: Key, now: Instant)
    requires forall i :: 0 <= i < |posted| ==> posted[i].kind != Hold
    ensures Releasing(ts + posted, k, now) == Releasing(ts, k, now)
  {
    assert ReleasingParts(ts + posted, k, now) == ReleasingParts(ts, k, now) + ReleasingParts(posted, k, now);
    SumConcat(ReleasingParts(ts, k, now), ReleasingParts(posted, k, now));
    SumZero(ReleasingParts(posted, k, now));
  }

  lemma CreditStepDeducts(s0: Store, creditNow: Instant, holdNow: Instant, s: Store, batch: seq<nat>, s': Store, k: Key)
    requires Deducted(s0, creditNow, holdNow, s, k)
    requires forall i :: i in batch ==> i < |s.blocks| && BlockDue(s.blocks[i], creditNow)
    requires CreditBatch(s, creditNow, batch, s')
    ensures Deducted(s0, creditNow, holdNow, s', k)
  {
    var posted := s'.transactions[|s.transactions|..];
    assert forall i :: 0 <= i < |posted| ==> Posts(s, s', posted[i], creditNow);
    assert s'.transactions == s.transactions + posted;
    TakenBounds(s, creditNow, batch, s', k);
    ReleasingIgnoresPostings(s.transactions, posted, k, holdNow);
    DeductCompose(BalanceOf(s0.balances, k), Taken(s0, s, k, creditNow), Taken(s, s', k, creditNow));
    assert CreditSettles(s, s', k, creditNow);
  }

  lemma CreditStepReaches(s0: Store, creditNow: Instant, holdNow: Instant, s: Store, batch: seq<nat>, s': Store)
    requires Reached(s0, creditNow, holdNow, s)
    requires forall i :: i in batch ==> i < |s.blocks| && BlockDue(s.blocks[i], creditNow)
    requires CreditBatch(s, creditNow, batch, s')
    ensures Reached(s0, creditNow, holdNow, s')
  {
    var posted := s'.transactions[|s.transactions|..];
    assert forall i :: 0 <= i < |posted| ==> Posts(s, s', posted[i], creditNow);
    assert s'.transactions == s.transactions + posted;
    forall k
      ensures Deducted(s0, creditNow, holdNow, s', k)
    {
      CreditStepDeducts(s0, creditNow, holdNow, s, batch, s', k);
    }
  }

  lemma HoldStepReaches(s0: Store, creditNow: Instant, holdNow: Instant, s: Store, batch: seq<nat>, s': Store)
    requires Reached(s0, creditNow, holdNow, s)
    requires forall i :: i in batch ==> i < |s.transactions| && HoldDue(s.transactions[i], holdNow)
    requires HoldBatch(s, holdNow, batch, s')
    ensures Reached(s0, creditNow, holdNow, s')
  {
    forall k
      ensures Deducted(s0, creditNow, holdNow, s', k)
    {
      assert Deducted(s0, creditNow, holdNow, s, k);
      FreedBounds(s, holdNow, batch, s', k);
      DeductCompose(HeldOf(s0.balances, k), Freed(s0, s, k, holdNow), Freed(s, s', k, holdNow));
      assert HoldSettles(s, s', k, holdNow);
    }
  }

  /** Any interleaving of committed batches of the two workers. */
  ghost predicate Interleaving(states: seq<Store>, creditNow: Instant, holdNow: Instant) {
    && states != []
    && forall j :: 0 <= j < |states| - 1 ==> Step(states[j], creditNow, holdNow, states[j + 1])
  }

  lemma {:induction false} InterleavingReaches(states: seq<Store>, creditNow: Instant, holdNow: Instant)
    requires Interleaving(states, creditNow, holdNow)
    ensures Reached(states[0], creditNow, holdNow, states[|states| - 1])
  {
    var n := |states| - 1;
    if n > 0 {
      var s, s' := states[n - 1], states[n];
      assert Step(states[n - 1], creditNow, holdNow, states[n - 1 + 1]);
      assert Interleaving(states[..n], creditNow, holdNow) by {
        forall j | 0 <= j < n - 1
          ensures Step(states[..n][j], creditNow, holdNow, states[..n][j + 1])
        {
          assert Step(states[j], creditNow, holdNow, states[j + 1]);
        }
      }
      InterleavingReaches(states[..n], creditNow, holdNow);
      if batch: seq<nat> :| CreditStepBy(s, creditNow, batch, s') {
        CreditStepReaches(states[0], creditNow, holdNow, s, batch, s');
      } else {
        var batch: seq<nat> :| HoldStepBy(s, holdNow, batch, s');
        HoldStepReaches(states[0], creditNow, holdNow, s, batch, s');
      }
    }
  }

  /** Neither worker has anything left to do. */
  ghost predicate Complete(s: Store, creditNow: Instant, holdNow: Instant) {
    && (forall i :: 0 <= i < |s.blocks| ==> !BlockDue(s.blocks[i], creditNow))
    && (forall i :: 0 <= i < |s.transactions| ==> !Releasable(s.transactions[i], holdNow))
  }

  /** A block that was due to expire is empty, any other untouched. */
  ghost predicate BlockOutcome(was: Block, now: Instant, b: Block) {
    b == if was.remainingAmount > 0 && was.expiresAt.Some? && was.expiresAt.value <= now
         then was.(remainingAmount := 0) else was
  }

  /** An active hold past its expiry that authorizes something is expired, any other transaction untouched. */
  ghost predicate HoldOutcome(was: Transaction, now: Instant, t: Transaction) {
    t == if was.kind == Hold && was.status == Active && was.expiresAt.Some? && was.expiresAt.value <= now &&
            was.authorized.Some? && was.authorized.value > 0
         then was.(status := Expired) else was
  }

  /** What went is gone from the amount, or the amount is zero if it was too small; it is untouched if nothing went. */
  ghost predicate AmountOutcome(was: int, total: int, left: int) {
    total >= 0 && left == if total > 0 && was < total then 0 else was - total
  }

  /**
   Where every complete run ends, whatever the batch sizes, the order of ties and keys,
   and the interleaving of the two workers: due blocks at zero, due well-formed holds
   expired, and every balance and held balance reduced once by the whole total, to no less
   than zero.
   */
  lemma CompleteRunIsOnePass(states: seq<Store>, creditNow: Instant, holdNow: Instant)
    requires Interleaving(states, creditNow, holdNow)
    requires Complete(states[|states| - 1], creditNow, holdNow)
    ensures var (s0, s) := (states[0], states[|states| - 1]);
            && |s.blocks| == |s0.blocks|
            && (forall i :: 0 <= i < |s0.blocks| ==> BlockOutcome(s0.blocks[i], creditNow, s.blocks[i]))
            && |s0.transactions| <= |s.transactions|
            && (forall i :: 0 <= i < |s0.transactions| ==> HoldOutcome(s0.transactions[i], holdNow, s.transactions[i]))
            && (forall k ::
                  && AmountOutcome(BalanceOf(s0.balances, k), Expiring(s0.blocks, k, creditNow), BalanceOf(s.balances, k))
                  && AmountOutcome(HeldOf(s0.balances, k), Releasing(s0.transactions, k, holdNow), HeldOf(s.balances, k)))
  {
    var (s0, s) := (states[0], states[|states| - 1]);
    InterleavingReaches(states, creditNow, holdNow);
    forall k
      ensures AmountOutcome(BalanceOf(s0.balances, k), Expiring(s0.blocks, k, creditNow), BalanceOf(s.balances, k))
      ensures AmountOutcome(HeldOf(s0.balances, k), Releasing(s0.transactions, k, holdNow), HeldOf(s.balances, k))
    {
      assert Deducted(s0, creditNow, holdNow, s, k);
      ExpiringBounds(s.blocks, k, creditNow);
      ReleasingBounds(s.transactions, k, holdNow);
    }
  }

  // ----- when hold expiry stops -----

  function Malformed(ts: seq<Transaction>, now: Instant): set<nat> {
    set i | 0 <= i < |ts| && HoldDue(ts[i], now) && !WellFormed(ts[i])
  }

  function Releasables(ts: seq<Transaction>, now: Instant): set<nat> {
    set i | 0 <= i < |ts| && Releasable(ts[i], now)
  }

  /** A run of hold batches of n rows in which every batch was full, so that the loop went on. */
  ghost predicate FullRun(states: seq<Store>, batches: seq<seq<nat>>, now: Instant, n: nat) {
    && |states| == |batches| + 1
    && forall j :: 0 <= j < |batches| ==>
        && |batches[j]| == n
        && IsBatch(DueHolds(states[j].transactions, now), n, batches[j])
        && HoldBatch(states[j], now, batches[j], states[j + 1])
  }

  /** Malformed holds stay; a batch of n rows of which fewer than n can be malformed releases one. */
  lemma HoldBatchProgress(s: Store, now: Instant, n: nat, batch: seq<nat>, s': Store)
    requires IsBatch(DueHolds(s.transactions, now), n, batch)
    requires HoldBatch(s, now, batch, s')
    ensures Malformed(s'.transactions, now) == Malformed(s.transactions, now)
    ensures Releasables(s'.transactions, now) <= Releasables(s.transactions, now)
    ensures |batch| > |Malformed(s.transactions, now)| ==>
              Releasables(s'.transactions, now) < Releasables(s.transactions, now)
  {
    var bad := Malformed(s.transactions, now);
    if |batch| > |bad| {
      if forall i :: i in batch ==> i in bad { DistinctSize(batch, bad); }
      var i :| i in batch && i !in bad;
      assert DueHolds(s.transactions, now)[i].Some?;
      assert i in Releasables(s.transactions, now) && i !in Releasables(s'.transactions, now);
    }
  }

  lemma {:induction false} FullRunBounds(states: seq<Store>, batches: seq<seq<nat>>, now: Instant, n: nat)
    requires FullRun(states, batches, now, n)
    ensures var last := states[|batches|];
            && Malformed(last.transactions, now) == Malformed(states[0].transactions, now)
            && (|Malformed(states[0].transactions, now)| < n ==>
                  |batches| + |Releasables(last.transactions, now)| <= |Releasables(states[0].transactions, now)|)
  {
    if batches != [] {
      var m := |batches| - 1;
      FullRunBounds(states[..m + 1], batches[..m], now, n);
      var s, s' := states[m], states[m + 1];
      HoldBatchProgress(s, now, n, batches[m], s');
      if |Malformed(states[0].transactions, now)| < n {
        SmallerSet(Releasables(s'.transactions, now), Releasables(s.transactions, now));
      }
    }
  }

  lemma SmallerSet(a: set<nat>, b: set<nat>)
    requires a < b
    ensures |a| < |b|
  {
    var x :| x in b && x !in a;
    assert a <= b - {x};
    SubsetSize(a, b - {x});
  }

  lemma {:induction false} SubsetSize(a: set<nat>, b: set<nat>)
    requires a <= b
    ensures |a| <= |b|
  {
    if a != {} {
      var x :| x in a;
      SubsetSize(a - {x}, b - {x});
    }
  }

  lemma SetOfSize(s: seq<nat>, all: set<nat>)
    requires forall x :: x in all ==> x in s
    ensures |all| <= |s|
    decreases s
  {
    if s != [] {
      var n := |s| - 1;
      SetOfSize(s[..n], all - {s[n]});
      SubsetSize(all, all - {s[n]} + {s[n]});
    } else {
      assert all == {};
    }
  }

  /** A short batch leaves nothing behind: it held every due row, so all were well-formed or fewer than n malformed. */
  lemma ShortBatch(s: Store, now: Instant, n: nat, batch: seq<nat>)
    requires IsBatch(DueHolds(s.transactions, now), n, batch) && |batch| < n
    ensures |Malformed(s.transactions, now)| < n
    ensures forall s' :: HoldBatch(s, now, batch, s') ==> Releasables(s'.transactions, now) == {}
  {
    var ts := s.transactions;
    var due := DueHolds(ts, now);
    forall i | 0 <= i < |ts| && HoldDue(ts[i], now)
      ensures i in batch
    {
      assert due[i].Some?;
    }
    SetOfSize(batch, Malformed(ts, now));
    forall s' | HoldBatch(s, now, batch, s')
      ensures Releasables(s'.transactions, now) == {}
    {
    }
  }

  function HoldExpired(ts: seq<Transaction>, batch: seq<nat>): seq<Transaction> {
    seq(|ts|, i requires 0 <= i < |ts| =>
      if i in batch && WellFormed(ts[i]) then ts[i].(status := Expired) else ts[i])
  }

  /** What a hold batch commits, when the balance rows it needs are there. */
  function HoldBatchResult(s: Store, now: Instant, batch: seq<nat>): Store {
    var ts := HoldExpired(s.transactions, batch);
    Store(s.blocks,
          map k | k in s.balances ::
            Balance(s.balances[k].balance,
                    Deduct(s.balances[k].held, Releasing(s.transactions, k, now) - Releasing(ts, k, now))),
          ts)
  }

  ghost predicate BalancesPresent(s: Store, now: Instant) {
    forall i :: 0 <= i < |s.transactions| && Releasable(s.transactions[i], now) ==> s.transactions[i].key in s.balances
  }

  lemma NothingFreed(s: Store, now: Instant, batch: seq<nat>, k: Key)
    requires BalancesPresent(s, now) && k !in s.balances
    ensures Releasing(s.transactions, k, now) == Releasing(HoldExpired(s.transactions, batch), k, now) == 0
  {
    SumZero(ReleasingParts(s.transactions, k, now));
    SumZero(ReleasingParts(HoldExpired(s.transactions, batch), k, now));
  }

  lemma HoldBatchSettles(s: Store, now: Instant, batch: seq<nat>, k: Key)
    requires BalancesPresent(s, now)
    ensures HoldSettles(s, HoldBatchResult(s, now, batch), k, now)
  {
    if k !in s.balances { NothingFreed(s, now, batch, k); }
  }

  lemma HoldBatchCommits(s: Store, now: Instant, batch: seq<nat>)
    requires BalancesPresent(s, now)
    ensures HoldBatch(s, now, batch, HoldBatchResult(s, now, batch))
  {
    forall k {
      HoldBatchSettles(s, now, batch, k);
    }
  }

  lemma BalancesStayPresent(s: Store, now: Instant, batch: seq<nat>)
    requires BalancesPresent(s, now)
    ensures BalancesPresent(HoldBatchResult(s, now, batch), now)
  {
  }

  lemma LongerRun(states: seq<Store>, batches: seq<seq<nat>>, now: Instant, n: nat, batch: seq<nat>, next: Store)
    requires FullRun(states, batches, now, n)
    requires |batch| == n && IsBatch(DueHolds(states[|batches|].transactions, now), n, batch)
    requires HoldBatch(states[|batches|], now, batch, next)
    ensures FullRun(states + [next], batches + [batch], now, n)
  {
  }

  /** With n or more malformed holds due, full batches never run out. */
  lemma {:induction false} LongRun(s0: Store, now: Instant, n: nat, length: nat)
    returns (states: seq<Store>, batches: seq<seq<nat>>)
    requires BalancesPresent(s0, now) && |Malformed(s0.transactions, now)| >= n
    ensures FullRun(states, batches, now, n) && states[0] == s0 && |batches| == length
    ensures BalancesPresent(states[length], now)
  {
    if length == 0 {
      states, batches := [s0], [];
    } else {
      states, batches := LongRun(s0, now, n, length - 1);
      var s := states[length - 1];
      var batch := SelectDue(DueHolds(s.transactions, now), n);
      FullRunBounds(states, batches, now, n);
      if |batch| < n { ShortBatch(s, now, n, batch); }
      HoldBatchCommits(s, now, batch);
      BalancesStayPresent(s, now, batch);
      LongerRun(states, batches, now, n, batch, HoldBatchResult(s, now, batch));
      states, batches := states + [HoldBatchResult(s, now, batch)], batches + [batch];
    }
  }

  /** The loop runs full batches for ever only if there is no bound on how many it can run. */
  ghost predicate StopsAfter(s0: Store, now: Instant, n: nat, bound: nat) {
    forall states: seq<Store>, batches: seq<seq<nat>> ::
      FullRun(states, batches, now, n) && states[0] == s0 ==> |batches| <= bound
  }

  /**
   Hold expiry with batches of n >= 1 rows stops exactly when fewer than n due holds are
   malformed, and then after at most as many full batches as there are well-formed ones.
   */
  lemma HoldExpiryStops(s0: Store, now: Instant, n: nat)
    requires n >= 1 && BalancesPresent(s0, now)
    ensures (exists bound: nat :: StopsAfter(s0, now, n, bound)) <==> |Malformed(s0.transactions, now)| < n
    ensures |Malformed(s0.transactions, now)| < n ==> StopsAfter(s0, now, n, |Releasables(s0.transactions, now)|)
  {
    if |Malformed(s0.transactions, now)| < n {
      forall states: seq<Store>, batches: seq<seq<nat>> | FullRun(states, batches, now, n) && states[0] == s0
        ensures |batches| <= |Releasables(s0.transactions, now)|
      {
        FullRunBounds(states, batches, now, n);
      }
      var most: nat := |Releasables(s0.transactions, now)|;
      assert StopsAfter(s0, now, n, most);
    } else {
      forall bound: nat
        ensures !StopsAfter(s0, now, n, bound)
      {
        var states, batches := LongRun(s0, now, n, bound + 1);
      }
    }
  }

  /** n due holds that lack an authorization. */
  function StuckHolds(n: nat): Store {
    Store([], map[], seq(n, _ => Transaction(Key("u", 0), 0, None, Hold, Active, None, Some(0))))
  }

  lemma {:induction false} FirstNumbers(all: set<nat>, n: nat)
    requires forall i: nat :: i in all <==> i < n
    ensures |all| == n
  {
    if n == 0 {
      assert all == {};
    } else {
      FirstNumbers(all - {n - 1}, n - 1);
    }
  }

  /** For every batch size there is a store on which the loop runs more full batches than any bound. */
  lemma HoldExpiryEndless(n: nat, bound: nat)
    requires n >= 1
    ensures !StopsAfter(StuckHolds(n), 0, n, bound)
  {
    var s0 := StuckHolds(n);
    FirstNumbers(Malformed(s0.transactions, 0), n);
    HoldExpiryStops(s0, 0, n);
  }
}
