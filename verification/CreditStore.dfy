/**
 Credit blocks, balances and transactions, and what one committed batch of each
 expiry worker does to them.

 A row of the block and transaction tables is known by its position.
 */
module CreditStore {
  import opened Wrappers
  import opened Instants
  import opened Sums

  datatype Key = Key(userId: string, creditType: nat)

  datatype Block = Block(key: Key, originalAmount: int, remainingAmount: int, expiresAt: Option<Instant>)

  datatype Balance = Balance(balance: int, held: int)

  datatype TransactionType = Deposit | Withdrawal | Expiry | Refund | AdminAdjust | Hold

  datatype Status = Posted | Active | Captured | Released | Expired

  datatype Transaction = Transaction(
    key: Key,
    amount: int,
    balanceAfter: Option<int>,
    kind: TransactionType,
    status: Status,
    authorized: Option<int>,
    expiresAt: Option<Instant>)

  datatype Store = Store(blocks: seq<Block>, balances: map<Key, Balance>, transactions: seq<Transaction>)

  datatype Error = MissingBalance

  // ----- which rows are due -----

  predicate BlockDue(b: Block, now: Instant) {
    b.remainingAmount > 0 && b.expiresAt.Some? && b.expiresAt.value <= now
  }

  predicate HoldDue(t: Transaction, now: Instant) {
    t.kind == Hold && t.status == Active && t.expiresAt.Some? && t.expiresAt.value <= now
  }

  /** A hold without a positive authorization is selected but never expired. */
  predicate WellFormed(t: Transaction) {
    t.authorized.Some? && t.authorized.value > 0
  }

  predicate Releasable(t: Transaction, now: Instant) {
    HoldDue(t, now) && WellFormed(t)
  }

  /** The expiry of every due row, in table order; nothing for the others. */
  function DueBlocks(blocks: seq<Block>, now: Instant): (due: seq<Option<Instant>>) {
    seq(|blocks|, i requires 0 <= i < |blocks| => if BlockDue(blocks[i], now) then blocks[i].expiresAt else None)
  }

  function DueHolds(ts: seq<Transaction>, now: Instant): (due: seq<Option<Instant>>) {
    seq(|ts|, i requires 0 <= i < |ts| => if HoldDue(ts[i], now) then ts[i].expiresAt else None)
  }

  /** What a select ordered by expiry and limited to n rows may return; ties come in any order. */
  ghost predicate IsBatch(due: seq<Option<Instant>>, n: nat, batch: seq<nat>) {
    && Distinct(batch)
    && (forall i :: 0 <= i < |batch| ==> batch[i] < |due| && due[batch[i]].Some?)
    && (forall i, j :: 0 <= i < j < |batch| ==> due[batch[i]].value <= due[batch[j]].value)
    && (forall i, j :: i in batch && 0 <= j < |due| && due[j].Some? && j !in batch ==> due[i].value <= due[j].value)
    && |batch| <= n
    && (|batch| < n ==> forall j :: 0 <= j < |due| && due[j].Some? ==> j in batch)
  }

  /** The earliest due row not yet taken. */
  function EarliestDue(due: seq<Option<Instant>>, taken: seq<nat>): (first: Option<nat>)
    ensures first.None? ==> forall j :: 0 <= j < |due| && due[j].Some? ==> j in taken
    ensures first.Some? ==>
      && first.value < |due| && due[first.value].Some? && first.value !in taken
      && forall j :: 0 <= j < |due| && due[j].Some? && j !in taken ==> due[first.value].value <= due[j].value
  {
    if due == [] then None
    else
      var i := |due| - 1;
      var first := EarliestDue(due[..i], taken);
      if due[i].None? || i in taken then first
      else if first.None? || due[i].value < due[first.value].value then Some(i)
      else first
  }

  /** The batch grown from `batch`: the earliest due row, again and again, until n are taken or none is left. */
  function SelectDue(due: seq<Option<Instant>>, n: nat, batch: seq<nat> := []): (selected: seq<nat>)
    requires |batch| <= n && IsBatch(due, |batch|, batch)
    ensures IsBatch(due, n, selected)
    decreases n - |batch|
  {
    if |batch| == n then batch
    else
      match EarliestDue(due, batch)
      case None => batch
      case Some(i) => SelectDue(due, n, batch + [i])
  }

  // ----- totals -----

  function RemainingParts(blocks: seq<Block>, k: Key): seq<int> {
    seq(|blocks|, i requires 0 <= i < |blocks| => if blocks[i].key == k then blocks[i].remainingAmount else 0)
  }

  /** Credits left in the blocks of a user and type. */
  function Remaining(blocks: seq<Block>, k: Key): int {
    Sum(RemainingParts(blocks, k))
  }

  function ExpiringParts(blocks: seq<Block>, k: Key, now: Instant): seq<int> {
    seq(|blocks|, i requires 0 <= i < |blocks| =>
      if blocks[i].key == k && BlockDue(blocks[i], now) then blocks[i].remainingAmount else 0)
  }

  /** Credits of a user and type that are due to expire. */
  function Expiring(blocks: seq<Block>, k: Key, now: Instant): int {
    Sum(ExpiringParts(blocks, k, now))
  }

  function ReleasingParts(ts: seq<Transaction>, k: Key, now: Instant): seq<int> {
    seq(|ts|, i requires 0 <= i < |ts| =>
      if ts[i].key == k && Releasable(ts[i], now) then ts[i].authorized.value else 0)
  }

  /** Held credits of a user and type that are due to be released. */
  function Releasing(ts: seq<Transaction>, k: Key, now: Instant): int {
    Sum(ReleasingParts(ts, k, now))
  }

  function AmountParts(ts: seq<Transaction>, k: Key): seq<int> {
    seq(|ts|, i requires 0 <= i < |ts| => if ts[i].key == k then ts[i].amount else 0)
  }

  /** The ledger sum of a user and type. */
  function Ledger(ts: seq<Transaction>, k: Key): int {
    Sum(AmountParts(ts, k))
  }

  function BalanceOf(balances: map<Key, Balance>, k: Key): int {
    if k in balances then balances[k].balance else 0
  }

  function HeldOf(balances: map<Key, Balance>, k: Key): int {
    if k in balances then balances[k].held else 0
  }

  /** Subtracting a positive total with a floor of zero; a zero total leaves even a negative amount alone. */
  function Deduct(amount: int, total: int): (left: int)
    ensures total <= 0 ==> left == amount
    ensures total > 0 ==> left >= 0 && left >= amount - total && (left == 0 || left == amount - total)
  {
    if total <= 0 then amount else if amount - total < 0 then 0 else amount - total
  }

  /** Deductions compose, which is what makes the split into batches invisible. */
  lemma DeductCompose(amount: int, x: int, y: int)
    requires x >= 0 && y >= 0
    ensures Deduct(Deduct(amount, x), y) == Deduct(amount, x + y)
    ensures x + y > 0 ==> Deduct(Deduct(amount, x), y) == if amount >= x + y then amount - x - y else 0
  {
  }

  function Zeroed(b: Block): Block {
    b.(remainingAmount := 0)
  }

  lemma ZeroOne(blocks: seq<Block>, i: nat, k: Key, now: Instant)
    requires i < |blocks| && BlockDue(blocks[i], now)
    ensures var taken := if blocks[i].key == k then blocks[i].remainingAmount else 0;
            var after := blocks[i := Zeroed(blocks[i])];
            && Expiring(after, k, now) == Expiring(blocks, k, now) - taken
            && Remaining(after, k) == Remaining(blocks, k) - taken
  {
    var after := blocks[i := Zeroed(blocks[i])];
    assert ExpiringParts(after, k, now) == ExpiringParts(blocks, k, now)[i := 0];
    assert RemainingParts(after, k) == RemainingParts(blocks, k)[i := 0];
    SumUpdate(ExpiringParts(blocks, k, now), i, 0);
    SumUpdate(RemainingParts(blocks, k), i, 0);
  }

  lemma ReleaseOne(ts: seq<Transaction>, i: nat, k: Key, now: Instant)
    requires i < |ts| && Releasable(ts[i], now)
    ensures var taken := if ts[i].key == k then ts[i].authorized.value else 0;
            Releasing(ts[i := ts[i].(status := Expired)], k, now) == Releasing(ts, k, now) - taken
  {
    var after := ts[i := ts[i].(status := Expired)];
    assert ReleasingParts(after, k, now) == ReleasingParts(ts, k, now)[i := 0];
    SumUpdate(ReleasingParts(ts, k, now), i, 0);
  }

  lemma ExpiringBounds(blocks: seq<Block>, k: Key, now: Instant)
    ensures Expiring(blocks, k, now) >= 0
    ensures (forall i :: 0 <= i < |blocks| ==> !BlockDue(blocks[i], now)) ==> Expiring(blocks, k, now) == 0
  {
    SumBounds(ExpiringParts(blocks, k, now));
    if forall i :: 0 <= i < |blocks| ==> !BlockDue(blocks[i], now) { SumZero(ExpiringParts(blocks, k, now)); }
  }

  lemma ReleasingBounds(ts: seq<Transaction>, k: Key, now: Instant)
    ensures Releasing(ts, k, now) >= 0
    ensures (forall i :: 0 <= i < |ts| ==> !Releasable(ts[i], now)) ==> Releasing(ts, k, now) == 0
  {
    SumBounds(ReleasingParts(ts, k, now));
    if forall i :: 0 <= i < |ts| ==> !Releasable(ts[i], now) { SumZero(ReleasingParts(ts, k, now)); }
  }

  // ----- one committed batch -----

  /** Credits of a user and type taken by a batch. */
  function Taken(s: Store, s': Store, k: Key, now: Instant): int {
    Expiring(s.blocks, k, now) - Expiring(s'.blocks, k, now)
  }

  function Freed(s: Store, s': Store, k: Key, now: Instant): int {
    Releasing(s.transactions, k, now) - Releasing(s'.transactions, k, now)
  }

  /** The ledger row that records an expiry. */
  function ExpiryPosting(k: Key, amount: int, balanceAfter: int, now: Instant): Transaction {
    Transaction(k, -amount, Some(balanceAfter), Expiry, Posted, None, Some(now))
  }

  /**
   A committed credit-expiry batch: the selected blocks are emptied, and every user and
   type that lost credits has one deducted balance and one ledger row carrying it.
   */
  ghost predicate CreditBatch(s: Store, now: Instant, batch: seq<nat>, s': Store) {
    && |s'.blocks| == |s.blocks|
    && (forall i :: 0 <= i < |s.blocks| ==> s'.blocks[i] == if i in batch then Zeroed(s.blocks[i]) else s.blocks[i])
    && (forall k :: CreditSettles(s, s', k, now))
    && s.transactions <= s'.transactions
    && Postings(s, s', s'.transactions[|s.transactions|..], now)
  }

  ghost predicate CreditSettles(s: Store, s': Store, k: Key, now: Instant) {
    if Taken(s, s', k, now) == 0
    then (k in s'.balances <==> k in s.balances) && (k in s.balances ==> s'.balances[k] == s.balances[k])
    else
      && k in s'.balances
      && s'.balances[k] ==
         Balance(Deduct(BalanceOf(s.balances, k), Taken(s, s', k, now)), HeldOf(s.balances, k))
  }

  ghost predicate Postings(s: Store, s': Store, posted: seq<Transaction>, now: Instant) {
    && (forall i, j :: 0 <= i < j < |posted| ==> posted[i].key != posted[j].key)
    && (forall i :: 0 <= i < |posted| ==> Posts(s, s', posted[i], now))
    && (forall k :: Taken(s, s', k, now) != 0 ==> exists i :: 0 <= i < |posted| && posted[i].key == k)
  }

  ghost predicate Posts(s: Store, s': Store, t: Transaction, now: Instant) {
    && Taken(s, s', t.key, now) > 0
    && t == ExpiryPosting(t.key, Taken(s, s', t.key, now), BalanceOf(s'.balances, t.key), now)
  }

  /**
   A committed hold-expiry batch: the well-formed selected holds are expired and every
   user and type they belong to has its held balance reduced; a missing balance row
   aborts the batch instead.
   */
  ghost predicate HoldBatch(s: Store, now: Instant, batch: seq<nat>, s': Store) {
    && s'.blocks == s.blocks
    && |s'.transactions| == |s.transactions|
    && (forall i :: 0 <= i < |s.transactions| ==>
          s'.transactions[i] ==
          if i in batch && WellFormed(s.transactions[i]) then s.transactions[i].(status := Expired) else s.transactions[i])
    && (forall k :: HoldSettles(s, s', k, now))
  }

  ghost predicate HoldSettles(s: Store, s': Store, k: Key, now: Instant) {
    && (k in s'.balances <==> k in s.balances)
    && (Freed(s, s', k, now) != 0 ==> k in s.balances)
    && (k in s.balances ==>
          s'.balances[k] == Balance(s.balances[k].balance, Deduct(s.balances[k].held, Freed(s, s', k, now))))
  }
}
