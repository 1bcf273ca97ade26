/**
 The dunning claim: any number of workers compete for past-due subscriptions through a
 guarded update that pushes the next retry out by a lease of 15 minutes.
 */
module Dunning {
  import opened Wrappers
  import opened Instants

  type SubId = nat
  type WorkerId = nat

  const LEASE: int := 15 * MINUTE

  datatype SubStatus = Pending | Active | PastDue | Cancelled

  datatype Subscription = Subscription(status: SubStatus, nextRetryAt: Option<Instant>, lastRetryAt: Option<Instant>)

  predicate Due(s: Subscription, now: Instant) {
    s.status == PastDue && s.nextRetryAt.Some? && s.nextRetryAt.value <= now
  }

  function Claimed(s: Subscription, at: Instant): Subscription {
    s.(nextRetryAt := Some(at + LEASE), lastRetryAt := Some(at))
  }

  /** The stored subscriptions, and the guarded update a worker claims with. */
  class SubscriptionTable {
    var rows: map<SubId, Subscription>

    method ClaimDunningAttempt(sub: SubId, now: Instant) returns (claimed: bool)
      modifies this
      ensures claimed <==> sub in old(rows) && Due(old(rows)[sub], now)
      ensures rows == if claimed then old(rows)[sub := Claimed(old(rows)[sub], now)] else old(rows)
      ensures claimed ==> forall t :: Due(rows[sub], t) <==> t >= now + LEASE
      ensures claimed <==>
                && sub in old(rows) && old(rows)[sub].status == PastDue
                && old(rows)[sub].nextRetryAt.Some? && old(rows)[sub].nextRetryAt.value <= now
      ensures claimed ==>
                && rows[sub].nextRetryAt == Some(now + 15 * MINUTE) && rows[sub].lastRetryAt == Some(now)
                && rows[sub].status == PastDue
      ensures rows.Keys == old(rows).Keys && forall s :: s in rows && !(claimed && s == sub) ==> rows[s] == old(rows)[s]
    {
      var rowsAffected := 0;
      if sub in rows && rows[sub].status == PastDue && rows[sub].nextRetryAt.Some? && rows[sub].nextRetryAt.value <= now {
        rows := rows[sub := rows[sub].(nextRetryAt := Some(now + LEASE), lastRetryAt := Some(now))];
        rowsAffected := 1;
      }
      claimed := rowsAffected != 0;
    }
  }

  /**
   A worker reads its clock, then runs the update with that reading, then charges; the
   attempt ends when its outcome is recorded, or without a trace when the worker dies.
   */
  datatype Worker = Idle | Claiming(sub: SubId, clock: Instant) | Attempting(sub: SubId, since: Instant)

  datatype State = State(now: Instant, subs: map<SubId, Subscription>, workers: map<WorkerId, Worker>)

  datatype Event =
    | Tick(now: Instant)
    | ReadClock(worker: WorkerId, sub: SubId)
    | Claim(worker: WorkerId)
    | Miss(worker: WorkerId)
    | Record(worker: WorkerId, outcome: Subscription)
    | Die(worker: WorkerId)
    | Other(sub: SubId, row: Subscription)

  function WorkerOf(s: State, w: WorkerId): Worker {
    if w in s.workers then s.workers[w] else Idle
  }

  /** Worker `w` is charging subscription `sub`. */
  predicate InFlight(s: State, w: WorkerId, sub: SubId) {
    WorkerOf(s, w).Attempting? && WorkerOf(s, w).sub == sub
  }

  /** What each event does; nothing here assumes that attempts are quick. */
  ghost predicate Next(s: State, e: Event, s': State) {
    match e
    case Tick(now) =>
      now >= s.now && s' == s.(now := now)
    case ReadClock(w, sub) =>
      WorkerOf(s, w) == Idle && s' == s.(workers := s.workers[w := Claiming(sub, s.now)])
    case Claim(w) =>
      && WorkerOf(s, w).Claiming?
      && var (sub, at) := (WorkerOf(s, w).sub, WorkerOf(s, w).clock);
      && sub in s.subs && Due(s.subs[sub], at)
      && s' == s.(subs := s.subs[sub := Claimed(s.subs[sub], at)], workers := s.workers[w := Attempting(sub, at)])
    case Miss(w) =>
      && WorkerOf(s, w).Claiming?
      && !(WorkerOf(s, w).sub in s.subs && Due(s.subs[WorkerOf(s, w).sub], WorkerOf(s, w).clock))
      && s' == s.(workers := s.workers[w := Idle])
    case Record(w, outcome) =>
      && WorkerOf(s, w).Attempting?
      && s' == s.(subs := s.subs[WorkerOf(s, w).sub := outcome], workers := s.workers[w := Idle])
    case Die(w) =>
      s' == s.(workers := s.workers[w := Idle])
    case Other(sub, row) =>
      s' == s.(subs := s.subs[sub := row])
  }

  /** The subscription an event claims or records, if any. */
  function ClaimOf(s: State, e: Event, sub: SubId): bool {
    e.Claim? && WorkerOf(s, e.worker).Claiming? && WorkerOf(s, e.worker).sub == sub
  }

  function RecordOf(s: State, e: Event, sub: SubId): bool {
    e.Record? && WorkerOf(s, e.worker).Attempting? && WorkerOf(s, e.worker).sub == sub
  }

  /** Last claim with no outcome recorded since, per subscription: bookkeeping of the proof, read off the events. */
  function OpenAfter(open: map<SubId, Instant>, s: State, e: Event): map<SubId, Instant> {
    match e
    case Claim(w) =>
      if WorkerOf(s, w).Claiming? then open[WorkerOf(s, w).sub := WorkerOf(s, w).clock] else open
    case Record(w, _) =>
      if WorkerOf(s, w).Attempting? then open - {WorkerOf(s, w).sub} else open
    case _ => open
  }

  /** No one may claim `row` with a clock reading before `t`. */
  predicate NotDueBefore(row: Subscription, t: Instant) {
    row.status == PastDue && row.nextRetryAt.Some? ==> row.nextRetryAt.value >= t
  }

  /**
   Assumption: nothing but a recorded outcome makes a claimed subscription due again
   before its lease ends.
   */
  ghost predicate KeepsLeases(open: map<SubId, Instant>, e: Event) {
    e.Other? && e.sub in open ==> NotDueBefore(e.row, open[e.sub] + LEASE)
  }

  /**
   Assumption: an attempt records its outcome (or its worker dies) in under 15 minutes of
   the clock reading it claimed with: time does not reach that mark while it runs.
   */
  ghost predicate Timely(s: State) {
    forall w :: w in s.workers && s.workers[w].Attempting? ==> s.now < s.workers[w].since + LEASE
  }

  ghost predicate Behavior(states: seq<State>, events: seq<Event>) {
    && |states| == |events| + 1
    && forall j :: 0 <= j < |events| ==> Next(states[j], events[j], states[j + 1])
  }

  /** The open claims after the first `j` events. */
  function OpenAt(states: seq<State>, events: seq<Event>, j: nat): map<SubId, Instant>
    requires j <= |events| && |states| == |events| + 1
  {
    if j == 0 then map[] else OpenAfter(OpenAt(states, events, j - 1), states[j - 1], events[j - 1])
  }

  /** Every step respects the leases. */
  ghost predicate LeasesKept(states: seq<State>, events: seq<Event>)
    requires |states| == |events| + 1
  {
    forall j :: 0 <= j < |events| ==> KeepsLeases(OpenAt(states, events, j), events[j])
  }

  ghost predicate Start(s: State) {
    forall w :: w in s.workers ==> s.workers[w] == Idle
  }

  /** An open claim protects its subscription until the lease ends; clock readings are in the past. */
  ghost predicate LeaseInv(s: State, open: map<SubId, Instant>) {
    && (forall sub :: sub in open && sub in s.subs ==> NotDueBefore(s.subs[sub], open[sub] + LEASE))
    && (forall w :: w in s.workers && s.workers[w].Claiming? ==> s.workers[w].clock <= s.now)
    && (forall w :: w in s.workers && s.workers[w].Attempting? ==> s.workers[w].since <= s.now)
  }

  lemma LeaseStep(s: State, open: map<SubId, Instant>, e: Event, s': State)
    requires LeaseInv(s, open) && Next(s, e, s') && KeepsLeases(open, e)
    ensures LeaseInv(s', OpenAfter(open, s, e))
    ensures e.Claim? && WorkerOf(s, e.worker).sub in open ==>
              WorkerOf(s, e.worker).clock >= open[WorkerOf(s, e.worker).sub] + LEASE
  {
  }

  lemma {:induction false} LeaseHolds(states: seq<State>, events: seq<Event>, j: nat)
    requires Behavior(states, events) && Start(states[0]) && LeasesKept(states, events)
    requires j <= |events|
    ensures LeaseInv(states[j], OpenAt(states, events, j))
  {
    if j > 0 {
      LeaseHolds(states, events, j - 1);
      assert Next(states[j - 1], events[j - 1], states[j - 1 + 1]);
      LeaseStep(states[j - 1], OpenAt(states, events, j - 1), events[j - 1], states[j]);
    }
  }

  /** A claim stays open, with its clock reading, until an outcome is recorded or it is claimed again. */
  lemma {:induction false} ClaimStaysOpen(states: seq<State>, events: seq<Event>, i: nat, j: nat, sub: SubId)
    requires Behavior(states, events)
    requires i < j <= |events| && ClaimOf(states[i], events[i], sub)
    requires forall k :: i < k < j ==> !RecordOf(states[k], events[k], sub) && !ClaimOf(states[k], events[k], sub)
    ensures sub in OpenAt(states, events, j)
    ensures OpenAt(states, events, j)[sub] == WorkerOf(states[i], events[i].worker).clock
  {
    if j > i + 1 {
      ClaimStaysOpen(states, events, i, j - 1, sub);
      assert !RecordOf(states[j - 1], events[j - 1], sub) && !ClaimOf(states[j - 1], events[j - 1], sub);
    }
  }

  /**
   In every interleaving of any number of workers, of which any may die at any time, two
   consecutive claims of one subscription with no outcome recorded between them are made
   with clock readings at least 15 minutes apart.
   */
  lemma ClaimsAreApart(states: seq<State>, events: seq<Event>, i: nat, j: nat, sub: SubId)
    requires Behavior(states, events) && Start(states[0]) && LeasesKept(states, events)
    requires i < j < |events| && ClaimOf(states[i], events[i], sub) && ClaimOf(states[j], events[j], sub)
    requires forall k :: i < k < j ==> !RecordOf(states[k], events[k], sub) && !ClaimOf(states[k], events[k], sub)
    ensures WorkerOf(states[j], events[j].worker).clock >= WorkerOf(states[i], events[i].worker).clock + LEASE
  {
    ClaimStaysOpen(states, events, i, j, sub);
    LeaseHolds(states, events, j);
    assert Next(states[j], events[j], states[j + 1]);
    LeaseStep(states[j], OpenAt(states, events, j), events[j], states[j + 1]);
  }

  /** Every attempt in flight is the open claim of its subscription, so no two share one. */
  ghost predicate Exclusive(s: State, open: map<SubId, Instant>) {
    && (forall w :: w in s.workers && s.workers[w].Attempting? ==>
          s.workers[w].sub in open && s.workers[w].since == open[s.workers[w].sub])
    && (forall v, w :: v in s.workers && w in s.workers && v != w && s.workers[v].Attempting? && s.workers[w].Attempting? ==>
          s.workers[v].sub != s.workers[w].sub)
  }

  lemma ExclusiveStep(s: State, open: map<SubId, Instant>, e: Event, s': State)
    requires LeaseInv(s, open) && Exclusive(s, open) && Timely(s)
    requires Next(s, e, s') && KeepsLeases(open, e)
    ensures Exclusive(s', OpenAfter(open, s, e))
  {
  }

  lemma {:induction false} ExclusiveHolds(states: seq<State>, events: seq<Event>, j: nat)
    requires Behavior(states, events) && Start(states[0]) && LeasesKept(states, events)
    requires forall k :: 0 <= k < |states| ==> Timely(states[k])
    requires j <= |events|
    ensures Exclusive(states[j], OpenAt(states, events, j))
  {
    if j > 0 {
      ExclusiveHolds(states, events, j - 1);
      LeaseHolds(states, events, j - 1);
      assert Next(states[j - 1], events[j - 1], states[j - 1 + 1]);
      ExclusiveStep(states[j - 1], OpenAt(states, events, j - 1), events[j - 1], states[j]);
    }
  }

  /**
   If every attempt ends within its lease, then in every interleaving at most one attempt
   per subscription is in flight at any time.
   */
  lemma AtMostOneInFlight(states: seq<State>, events: seq<Event>, j: nat, v: WorkerId, w: WorkerId, sub: SubId)
    requires Behavior(states, events) && Start(states[0]) && LeasesKept(states, events)
    requires forall k :: 0 <= k < |states| ==> Timely(states[k])
    requires j <= |events| && InFlight(states[j], v, sub) && InFlight(states[j], w, sub)
    ensures v == w
  {
    ExclusiveHolds(states, events, j);
  }

  /**
   The bound on attempts is exact: while an attempt runs and its subscription still waits
   under its lease, another worker reading the clock now can claim that subscription too
   if and only if the attempt has outlived its lease.
   */
  lemma OverdueAttemptIsDoubled(s: State, w: WorkerId, idle: WorkerId, sub: SubId)
    requires InFlight(s, w, sub) && idle != w && WorkerOf(s, idle) == Idle
    requires sub in s.subs && s.subs[sub].status == PastDue && s.subs[sub].nextRetryAt == Some(WorkerOf(s, w).since + LEASE)
    ensures (exists s1, s2 :: Next(s, ReadClock(idle, sub), s1) && Next(s1, Claim(idle), s2) &&
               InFlight(s2, w, sub) && InFlight(s2, idle, sub)) <==>
            s.now >= WorkerOf(s, w).since + LEASE
  {
    if s.now >= WorkerOf(s, w).since + LEASE {
      var s1 := s.(workers := s.workers[idle := Claiming(sub, s.now)]);
      var s2 := s1.(subs := s1.subs[sub := Claimed(s1.subs[sub], s.now)], workers := s1.workers[idle := Attempting(sub, s.now)]);
      assert Next(s, ReadClock(idle, sub), s1) && Next(s1, Claim(idle), s2);
      assert InFlight(s2, w, sub) && InFlight(s2, idle, sub);
    }
  }
}
