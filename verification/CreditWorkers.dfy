/**
 The two expiry workers over one store: a batch loop each, every batch a transaction
 that updates rows one by one, groups totals per user and type in a map, and then
 settles the balances in whatever order the map yields its keys.
 */
module CreditWorkers {
  import opened Wrappers
  import opened Instants
  import opened Sums
  import opened CreditStore
  import opened CreditExpiry

  function Total(totals: map<Key, int>, k: Key): int {
    if k in totals then totals[k] else 0
  }

  /** The batch size a worker uses: its default unless a positive one is configured. */
  function EffectiveBatch(configured: int, default: nat): (n: nat)
    requires default > 0
    ensures configured > 0 ==> n == configured
    ensures configured <= 0 ==> n == default
  {
    if configured <= 0 then default else configured
  }

  /** The blocks in `done` are emptied and `totals` holds what they held, per user and type. */
  ghost predicate Emptied(before: seq<Block>, done: seq<nat>, blocks: seq<Block>, totals: map<Key, int>, now: Instant) {
    && |blocks| == |before|
    && (forall i :: 0 <= i < |blocks| ==> blocks[i] == if i in done then Zeroed(before[i]) else before[i])
    && (forall k :: Total(totals, k) == Expiring(before, k, now) - Expiring(blocks, k, now))
    && (forall k :: k in totals ==> totals[k] > 0)
  }

  lemma EmptyOne(before: seq<Block>, done: seq<nat>, blocks: seq<Block>, totals: map<Key, int>, now: Instant, i: nat)
    requires Emptied(before, done, blocks, totals, now)
    requires i < |before| && i !in done && BlockDue(before[i], now)
    ensures var b := before[i];
            Emptied(before, done + [i], blocks[i := Zeroed(b)],
                    totals[b.key := Total(totals, b.key) + b.remainingAmount], now)
  {
    var b := before[i];
    assert blocks[i] == b;
    var totals' := totals[b.key := Total(totals, b.key) + b.remainingAmount];
    forall k
      ensures Total(totals', k) == Expiring(before, k, now) - Expiring(blocks[i := Zeroed(b)], k, now)
    {
      assert Total(totals, k) == Expiring(before, k, now) - Expiring(blocks, k, now);
      ZeroOne(blocks, i, k, now);
    }
    assert Total(totals, b.key) >= 0;
  }

  /** Balances and new ledger rows while the keys of `totals` outside `todo` are settled. */
  ghost predicate Settled(
    before: map<Key, Balance>, totals: map<Key, int>, todo: set<Key>, balances: map<Key, Balance>,
    posted: seq<Transaction>, now: Instant)
  {
    && (forall k {:trigger k in balances} ::
          if k in totals && k !in todo
          then k in balances && balances[k] == Balance(Deduct(BalanceOf(before, k), totals[k]), HeldOf(before, k))
          else (k in balances <==> k in before) && (k in before ==> balances[k] == before[k]))
    && PostedOnce(totals, todo, balances, posted, now)
  }

  /** One posting with the new balance for every key settled, in any order. */
  ghost predicate PostedOnce(totals: map<Key, int>, todo: set<Key>, balances: map<Key, Balance>, posted: seq<Transaction>,
                             now: Instant) {
    && (forall i, j :: 0 <= i < j < |posted| ==> posted[i].key != posted[j].key)
    && (forall i :: 0 <= i < |posted| ==>
          && posted[i].key in totals && posted[i].key !in todo
          && posted[i] == ExpiryPosting(posted[i].key, totals[posted[i].key], BalanceOf(balances, posted[i].key), now))
    && (forall k :: k in totals && k !in todo ==> exists i :: 0 <= i < |posted| && posted[i].key == k)
  }

  lemma PostOne(totals: map<Key, int>, todo: set<Key>, balances: map<Key, Balance>, posted: seq<Transaction>, now: Instant,
                k: Key, balances': map<Key, Balance>, t: Transaction)
    requires PostedOnce(totals, todo, balances, posted, now) && k in totals && k in todo
    requires forall q :: q != k ==> BalanceOf(balances', q) == BalanceOf(balances, q)
    requires t == ExpiryPosting(k, totals[k], BalanceOf(balances', k), now)
    ensures PostedOnce(totals, todo - {k}, balances', posted + [t], now)
  {
    var posted' := posted + [t];
    forall q | q in totals && q !in todo - {k}
      ensures exists i :: 0 <= i < |posted'| && posted'[i].key == q
    {
      if q == k {
        assert posted'[|posted|].key == k;
      } else {
        var i :| 0 <= i < |posted| && posted[i].key == q;
        assert posted'[i].key == q;
      }
    }
  }

  /** Settling one more key. */
  lemma SettleOne(before: map<Key, Balance>, totals: map<Key, int>, todo: set<Key>, balances: map<Key, Balance>,
                  posted: seq<Transaction>, now: Instant, k: Key, balances': map<Key, Balance>, t: Transaction)
    requires Settled(before, totals, todo, balances, posted, now)
    requires k in totals && k in todo && totals[k] > 0
    requires balances' == balances[k := Balance(Deduct(BalanceOf(before, k), totals[k]), HeldOf(before, k))]
    requires t == ExpiryPosting(k, totals[k], BalanceOf(balances', k), now)
    ensures Settled(before, totals, todo - {k}, balances', posted + [t], now)
  {
    PostOne(totals, todo, balances, posted, now, k, balances', t);
  }

  /** Settling every key of the batch totals commits the batch. */
  lemma SettledCommits(s: Store, totals: map<Key, int>, posted: seq<Transaction>, now: Instant, batch: seq<nat>, s': Store)
    requires Settled(s.balances, totals, {}, s'.balances, posted, now)
    requires forall k :: k in totals ==> totals[k] > 0
    requires forall k :: Total(totals, k) == Taken(s, s', k, now)
    requires |s'.blocks| == |s.blocks|
    requires forall i :: 0 <= i < |s.blocks| ==> s'.blocks[i] == if i in batch then Zeroed(s.blocks[i]) else s.blocks[i]
    requires s'.transactions == s.transactions + posted
    ensures CreditBatch(s, now, batch, s')
  {
    assert s'.transactions[|s.transactions|..] == posted;
    forall k
      ensures k in totals <==> Taken(s, s', k, now) != 0
      ensures k in totals ==> totals[k] == Taken(s, s', k, now)
      ensures CreditSettles(s, s', k, now)
    {
      assert Total(totals, k) == Taken(s, s', k, now);
    }
    assert forall i :: 0 <= i < |posted| ==> Posts(s, s', posted[i], now);
  }

  /** A row that records an expiry, with the balance it left. */
  ghost predicate RecordsExpiry(t: Transaction, now: Instant) {
    && t.kind == Expiry && t.status == Posted && t.amount < 0 && t.authorized == None && t.expiresAt == Some(now)
    && t.balanceAfter.Some? && t.balanceAfter.value >= 0
  }

  /** Every due block at zero, every balance reduced once by all that expired, the ledger carrying it, holds untouched. */
  ghost predicate CreditDone(s0: Store, now: Instant, s: Store) {
    && |s.blocks| == |s0.blocks|
    && (forall i :: 0 <= i < |s0.blocks| ==> BlockOutcome(s0.blocks[i], now, s.blocks[i]))
    && (forall k ::
          && AmountOutcome(BalanceOf(s0.balances, k), Expiring(s0.blocks, k, now), BalanceOf(s.balances, k))
          && HeldOf(s.balances, k) == HeldOf(s0.balances, k)
          && Ledger(s.transactions, k) == Ledger(s0.transactions, k) - Expiring(s0.blocks, k, now))
    && s0.transactions <= s.transactions
    && forall i :: |s0.transactions| <= i < |s.transactions| ==> RecordsExpiry(s.transactions[i], now)
  }

  /** Every well-formed due hold expired, every held balance reduced once by all that was released, nothing else touched. */
  ghost predicate HoldsDone(s0: Store, now: Instant, s: Store) {
    && s.blocks == s0.blocks
    && |s.transactions| == |s0.transactions|
    && (forall i :: 0 <= i < |s0.transactions| ==> HoldOutcome(s0.transactions[i], now, s.transactions[i]))
    && (forall k ::
          && BalanceOf(s.balances, k) == BalanceOf(s0.balances, k)
          && AmountOutcome(HeldOf(s0.balances, k), Releasing(s0.transactions, k, now), HeldOf(s.balances, k)))
  }

  /** Where the credit loop is between two batches. */
  ghost predicate CreditProgress(s0: Store, now: Instant, s: Store) {
    && Reached(s0, now, now, s)
    && s0.transactions <= s.transactions
    && (forall i :: |s0.transactions| <= i < |s.transactions| ==> RecordsExpiry(s.transactions[i], now))
    && forall k ::
        && HeldOf(s.balances, k) == HeldOf(s0.balances, k)
        && Ledger(s.transactions, k) == Ledger(s0.transactions, k) - Taken(s0, s, k, now)
  }

  lemma NewRowsRecordExpiry(s: Store, now: Instant, batch: seq<nat>, s': Store)
    requires CreditBatch(s, now, batch, s')
    ensures forall i :: |s.transactions| <= i < |s'.transactions| ==> RecordsExpiry(s'.transactions[i], now)
  {
    forall i | |s.transactions| <= i < |s'.transactions|
      ensures RecordsExpiry(s'.transactions[i], now)
    {
      assert Posts(s, s', s'.transactions[|s.transactions|..][i - |s.transactions|], now);
      assert CreditSettles(s, s', s'.transactions[i].key, now);
    }
  }

  lemma CreditProgressStep(s0: Store, now: Instant, s: Store, n: nat, batch: seq<nat>, s': Store)
    requires CreditProgress(s0, now, s)
    requires IsBatch(DueBlocks(s.blocks, now), n, batch) && CreditBatch(s, now, batch, s')
    ensures CreditProgress(s0, now, s')
    ensures DueSet(s'.blocks, now) <= DueSet(s.blocks, now)
    ensures batch != [] ==> DueSet(s'.blocks, now) < DueSet(s.blocks, now)
    ensures |batch| < n ==> DueSet(s'.blocks, now) == {}
  {
    var due := DueBlocks(s.blocks, now);
    forall i | i in batch
      ensures i < |s.blocks| && BlockDue(s.blocks[i], now)
    {
      assert due[i].Some?;
    }
    forall i | 0 <= i < |due| && BlockDue(s.blocks[i], now)
      ensures due[i].Some?
    {
    }
    CreditStepReaches(s0, now, now, s, batch, s');
    forall k
      ensures HeldOf(s'.balances, k) == HeldOf(s0.balances, k)
      ensures Ledger(s'.transactions, k) == Ledger(s0.transactions, k) - Taken(s0, s', k, now)
    {
      CreditBatchConserves(s, now, batch, s', k);
      TakenBounds(s, now, batch, s', k);
      assert CreditSettles(s, s', k, now);
    }
    NewRowsRecordExpiry(s, now, batch, s');
    if batch != [] { assert batch[0] in DueSet(s.blocks, now) && batch[0] !in DueSet(s'.blocks, now); }
  }

  /** The holds in `done` that are well-formed are expired and `totals` holds their authorizations. */
  ghost predicate Lapsed(before: seq<Transaction>, done: seq<nat>, ts: seq<Transaction>, totals: map<Key, int>, now: Instant) {
    && |ts| == |before|
    && (forall i :: 0 <= i < |ts| ==>
          ts[i] == if i in done && WellFormed(before[i]) then before[i].(status := Expired) else before[i])
    && (forall k :: Total(totals, k) == Releasing(before, k, now) - Releasing(ts, k, now))
    && (forall k :: k in totals ==> totals[k] > 0)
  }

  lemma LapseOne(before: seq<Transaction>, done: seq<nat>, ts: seq<Transaction>, totals: map<Key, int>, now: Instant, i: nat)
    requires Lapsed(before, done, ts, totals, now)
    requires i < |before| && i !in done && HoldDue(before[i], now)
    ensures !WellFormed(before[i]) ==> Lapsed(before, done + [i], ts, totals, now)
    ensures WellFormed(before[i]) ==>
              var t := before[i];
              Lapsed(before, done + [i], ts[i := t.(status := Expired)],
                     totals[t.key := Total(totals, t.key) + t.authorized.value], now)
  {
    if WellFormed(before[i]) {
      var t := before[i];
      assert ts[i] == t;
      var totals' := totals[t.key := Total(totals, t.key) + t.authorized.value];
      forall k
        ensures Total(totals', k) == Releasing(before, k, now) - Releasing(ts[i := t.(status := Expired)], k, now)
      {
        assert Total(totals, k) == Releasing(before, k, now) - Releasing(ts, k, now);
        ReleaseOne(ts, i, k, now);
      }
      assert Total(totals, t.key) >= 0;
    }
  }

  /** With the balance rows of all releasable holds present, so are those of the totals. */
  lemma TotalsHaveBalances(s: Store, now: Instant, batch: seq<nat>, ts: seq<Transaction>, totals: map<Key, int>)
    requires Lapsed(s.transactions, batch, ts, totals, now) && BalancesPresent(s, now)
    ensures totals.Keys <= s.balances.Keys
  {
    forall k | k in totals
      ensures k in s.balances
    {
      assert Total(totals, k) == Releasing(s.transactions, k, now) - Releasing(ts, k, now);
      ReleasingBounds(ts, k, now);
      if k !in s.balances { NothingFreed(s, now, batch, k); }
    }
  }

  /** Held balances while the keys of `totals` outside `todo` are settled. */
  ghost predicate HeldSettled(before: map<Key, Balance>, totals: map<Key, int>, todo: set<Key>, balances: map<Key, Balance>) {
    && balances.Keys == before.Keys
    && (forall k :: k in totals && k !in todo ==> k in before)
    && forall k :: k in before ==>
        balances[k] == if k in totals && k !in todo
                       then Balance(before[k].balance, Deduct(before[k].held, totals[k])) else before[k]
  }

  lemma HeldSettledCommits(s: Store, totals: map<Key, int>, now: Instant, batch: seq<nat>, s': Store)
    requires HeldSettled(s.balances, totals, {}, s'.balances)
    requires Lapsed(s.transactions, batch, s'.transactions, totals, now)
    requires s'.blocks == s.blocks
    ensures HoldBatch(s, now, batch, s')
  {
  }

  /** Where the hold loop is between two batches. */
  ghost predicate HoldProgress(s0: Store, now: Instant, s: Store) {
    && Reached(s0, now, now, s)
    && s.blocks == s0.blocks
    && |s.transactions| == |s0.transactions|
    && s.balances.Keys == s0.balances.Keys
    && Malformed(s.transactions, now) == Malformed(s0.transactions, now)
    && forall k :: BalanceOf(s.balances, k) == BalanceOf(s0.balances, k)
  }

  lemma HoldProgressStep(s0: Store, now: Instant, s: Store, n: nat, batch: seq<nat>, s': Store)
    requires HoldProgress(s0, now, s)
    requires IsBatch(DueHolds(s.transactions, now), n, batch) && HoldBatch(s, now, batch, s')
    ensures HoldProgress(s0, now, s')
    ensures |batch| > |Malformed(s0.transactions, now)| ==> Releasables(s'.transactions, now) < Releasables(s.transactions, now)
    ensures |batch| < n ==> Releasables(s'.transactions, now) == {}
  {
    forall i | i in batch
      ensures i < |s.transactions| && HoldDue(s.transactions[i], now)
    {
      assert DueHolds(s.transactions, now)[i].Some?;
    }
    HoldStepReaches(s0, now, now, s, batch, s');
    HoldBatchProgress(s, now, n, batch, s');
    if |batch| < n { ShortBatch(s, now, n, batch); }
    forall k
      ensures BalanceOf(s'.balances, k) == BalanceOf(s0.balances, k)
      ensures k in s'.balances <==> k in s0.balances
    {
      assert HoldSettles(s, s', k, now);
      assert BalanceOf(s.balances, k) == BalanceOf(s0.balances, k);
    }
  }

  lemma HoldFinish(s0: Store, now: Instant, s: Store)
    requires HoldProgress(s0, now, s) && Releasables(s.transactions, now) == {}
    ensures HoldsDone(s0, now, s)
  {
    assert forall i :: 0 <= i < |s.transactions| && Releasable(s.transactions[i], now) ==> i in Releasables(s.transactions, now);
    forall k
      ensures AmountOutcome(HeldOf(s0.balances, k), Releasing(s0.transactions, k, now), HeldOf(s.balances, k))
    {
      assert Deducted(s0, now, now, s, k);
      ReleasingBounds(s.transactions, k, now);
    }
  }

  function DueSet(blocks: seq<Block>, now: Instant): set<nat> {
    set i | 0 <= i < |blocks| && BlockDue(blocks[i], now)
  }

  lemma CreditFinish(s0: Store, now: Instant, s: Store)
    requires CreditProgress(s0, now, s) && DueSet(s.blocks, now) == {}
    ensures CreditDone(s0, now, s)
  {
    assert forall i :: 0 <= i < |s.blocks| && BlockDue(s.blocks[i], now) ==> i in DueSet(s.blocks, now);
    forall k
      ensures AmountOutcome(BalanceOf(s0.balances, k), Expiring(s0.blocks, k, now), BalanceOf(s.balances, k))
      ensures Ledger(s.transactions, k) == Ledger(s0.transactions, k) - Expiring(s0.blocks, k, now)
    {
      assert Deducted(s0, now, now, s, k);
      ExpiringBounds(s.blocks, k, now);
    }
  }

  class CreditWorkers {
    var blocks: seq<Block>
    var balances: map<Key, Balance>
    var transactions: seq<Transaction>

    ghost function State(): Store
      reads this
    {
      Store(blocks, balances, transactions)
    }

    /** Empties the selected blocks and groups what they held. */
    method ZeroBlocks(selected: seq<nat>, now: Instant) returns (totals: map<Key, int>)
      requires Distinct(selected)
      requires forall i :: i in selected ==> i < |blocks| && BlockDue(blocks[i], now)
      modifies this`blocks
      ensures Emptied(old(blocks), selected, blocks, totals, now)
    {
      totals := map[];
      for j := 0 to |selected|
        invariant Emptied(old(blocks), selected[..j], blocks, totals, now)
      {
        var i := selected[j];
        assert i in selected && i !in selected[..j];
        var block := blocks[i];
        EmptyOne(old(blocks), selected[..j], blocks, totals, now, i);
        assert selected[..j + 1] == selected[..j] + [i];
        totals := totals[block.key := Total(totals, block.key) + block.remainingAmount];
        blocks := blocks[i := Zeroed(block)];
      }
      assert selected[..|selected|] == selected;
    }

    /** One transaction of credit expiry. */
    method ExpireBlocks(now: Instant, n: nat) returns (count: nat, ghost batch: seq<nat>)
      requires n > 0
      modifies this
      ensures IsBatch(DueBlocks(old(blocks), now), n, batch) && count == |batch|
      ensures CreditBatch(old(State()), now, batch, State())
    {
      ghost var s := State();
      var selected := SelectDue(DueBlocks(blocks, now), n);
      batch := selected;
      count := |selected|;
      forall i | i in selected
        ensures i < |blocks| && BlockDue(blocks[i], now)
      {
        assert DueBlocks(blocks, now)[i].Some?;
      }
      var totals := ZeroBlocks(selected, now);
      ghost var posted := SettleBalances(totals, now);
      SettledCommits(s, totals, posted, now, batch, State());
    }

    /** Deducts each total from its balance, creating a missing balance row, and posts it. */
    method SettleBalances(totals: map<Key, int>, now: Instant) returns (ghost posted: seq<Transaction>)
      requires forall k :: k in totals ==> totals[k] > 0
      modifies this`balances, this`transactions
      ensures Settled(old(balances), totals, {}, balances, posted, now)
      ensures transactions == old(transactions) + posted
    {
      var todo := totals.Keys;
      posted := [];
      while todo != {}
        invariant todo <= totals.Keys
        invariant transactions == old(transactions) + posted
        invariant Settled(old(balances), totals, todo, balances, posted, now)
      {
        var k :| k in todo;
        var amount := totals[k];
        ghost var unsettled := balances;
        if k !in balances { balances := balances[k := Balance(0, 0)]; }
        var newBalance := balances[k].balance - amount;
        if newBalance < 0 { newBalance := 0; }
        balances := balances[k := balances[k].(balance := newBalance)];
        var t := ExpiryPosting(k, amount, newBalance, now);
        transactions := transactions + [t];
        SettleOne(old(balances), totals, todo, unsettled, posted, now, k, balances, t);
        posted := posted + [t];
        todo := todo - {k};
      }
    }

    /** The whole credit-expiry job. */
    method WorkCreditExpiry(disabled: bool, batchSize: int, now: Instant)
      modifies this
      ensures if disabled then State() == old(State()) else CreditDone(old(State()), now, State())
    {
      if disabled { return; }
      var n := EffectiveBatch(batchSize, 200);
      while true
        invariant CreditProgress(old(State()), now, State())
        decreases DueSet(blocks, now)
      {
        ghost var s := State();
        var count, batch := ExpireBlocks(now, n);
        CreditProgressStep(old(State()), now, s, n, batch, State());
        if count == 0 || count < n { break; }
      }
      CreditFinish(old(State()), now, State());
    }

    /** Expires the well-formed selected holds and groups what they held. */
    method ExpireSelected(selected: seq<nat>, now: Instant) returns (totals: map<Key, int>)
      requires Distinct(selected)
      requires forall i :: i in selected ==> i < |transactions| && HoldDue(transactions[i], now)
      modifies this`transactions
      ensures Lapsed(old(transactions), selected, transactions, totals, now)
    {
      totals := map[];
      for j := 0 to |selected|
        invariant Lapsed(old(transactions), selected[..j], transactions, totals, now)
      {
        var i := selected[j];
        assert i in selected && i !in selected[..j];
        var hold := transactions[i];
        LapseOne(old(transactions), selected[..j], transactions, totals, now, i);
        assert selected[..j + 1] == selected[..j] + [i];
        if hold.authorized.Some? && hold.authorized.value > 0 {
          totals := totals[hold.key := Total(totals, hold.key) + hold.authorized.value];
          transactions := transactions[i := hold.(status := Expired)];
        }
      }
      assert selected[..|selected|] == selected;
    }

    /** One transaction of hold expiry; a missing balance row rolls it back. */
    method ExpireHolds(now: Instant, n: nat) returns (err: Option<Error>, count: nat, ghost batch: seq<nat>)
      requires n > 0
      modifies this
      ensures IsBatch(DueHolds(old(transactions), now), n, batch) && count == |batch|
      ensures err == None ==> HoldBatch(old(State()), now, batch, State())
      ensures err != None ==> State() == old(State()) && !BalancesPresent(State(), now)
    {
      ghost var s := State();
      var oldBalances, oldTransactions := balances, transactions;
      var selected := SelectDue(DueHolds(transactions, now), n);
      batch := selected;
      count := |selected|;
      forall i | i in selected
        ensures i < |transactions| && HoldDue(transactions[i], now)
      {
        assert DueHolds(transactions, now)[i].Some?;
      }
      var totals := ExpireSelected(selected, now);
      var settled := SettleHeld(totals);
      if !settled {
        if BalancesPresent(s, now) { TotalsHaveBalances(s, now, batch, transactions, totals); }
        balances, transactions := oldBalances, oldTransactions;
        return Some(MissingBalance), count, batch;
      }
      HeldSettledCommits(s, totals, now, batch, State());
      return None, count, batch;
    }

    /** Subtracts each total from its held balance; gives up at a missing balance row. */
    method SettleHeld(totals: map<Key, int>) returns (ok: bool)
      requires forall k :: k in totals ==> totals[k] > 0
      modifies this`balances
      ensures ok <==> totals.Keys <= old(balances).Keys
      ensures ok ==> HeldSettled(old(balances), totals, {}, balances)
    {
      var todo := totals.Keys;
      while todo != {}
        invariant todo <= totals.Keys
        invariant HeldSettled(old(balances), totals, todo, balances)
      {
        var k :| k in todo;
        var amount := totals[k];
        if k !in balances { return false; }
        var newHeld := balances[k].held - amount;
        if newHeld < 0 { newHeld := 0; }
        balances := balances[k := balances[k].(held := newHeld)];
        todo := todo - {k};
      }
      return true;
    }

    /**
     The hold-expiry job, watched for up to `rounds` batches; the source has no such bound.
     It has come to its end when `stopped` is set: within one batch more than there are
     well-formed due holds if fewer are malformed than a batch has rows, and otherwise
     only by an error, however long it is watched.
     */
    method WorkHoldExpiry(disabled: bool, batchSize: int, now: Instant, rounds: nat)
      returns (err: Option<Error>, stopped: bool)
      modifies this
      ensures disabled ==> stopped && err == None && State() == old(State())
      ensures !disabled ==> HoldProgress(old(State()), now, State())
      ensures !disabled && stopped && err == None ==> HoldsDone(old(State()), now, State())
      ensures err != None ==> stopped && !BalancesPresent(State(), now)
      ensures !disabled ==>
                var bad := |Malformed(old(transactions), now)|;
                if bad < EffectiveBatch(batchSize, 100)
                then rounds > |Releasables(old(transactions), now)| ==> stopped
                else stopped ==> err != None
    {
      if disabled { return None, true; }
      var n := EffectiveBatch(batchSize, 100);
      for round := 0 to rounds
        invariant HoldProgress(old(State()), now, State())
        invariant |Malformed(old(transactions), now)| < n ==>
          round + |Releasables(transactions, now)| <= |Releasables(old(transactions), now)|
      {
        ghost var s := State();
        var failed, count, batch := ExpireHolds(now, n);
        if failed != None { return failed, true; }
        HoldProgressStep(old(State()), now, s, n, batch, State());
        if count == 0 || count < n {
          HoldFinish(old(State()), now, State());
          ShortBatch(s, now, n, batch);
          return None, true;
        }
        if |Malformed(old(transactions), now)| < n {
          SmallerSet(Releasables(transactions, now), Releasables(s.transactions, now));
        }
      }
      return None, false;
    }
  }
}
