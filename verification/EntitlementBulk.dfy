/**
 Operations that edit many windows at once: by subscription, by payment, by name;
 resuming, inserting and appending. The loops over many timelines are in EntitlementLoops.
 */
module EntitlementBulk {
  import opened Wrappers
  import opened Instants
  import opened EntitlementTable
  import opened EntitlementTimeline

  predicate From(e: Entitlement, sourceType: SourceType, sourceId: Id) {
    e.sourceType == sourceType && e.sourceId == Some(sourceId)
  }

  predicate LiveFrom(e: Entitlement, sourceType: SourceType, sourceId: Id) {
    From(e, sourceType, sourceId) && Live(e)
  }

  // ----- windows that only shrink -----

  /** Every live row of t' was live in t with the same key and start, and ends no later. */
  ghost predicate Shrunk(t: Table, t': Table) {
    && t'.Keys == t.Keys
    && forall i :: i in t' && Live(t'[i]) ==>
        && Live(t[i]) && SameTimeline(t[i], t'[i]) && t'[i].startAt == t[i].startAt
        && EndsAfter(t'[i], t'[i].startAt)
        && (t'[i].endAt == t[i].endAt || (t'[i].endAt.Some? && EndsAfter(t[i], t'[i].endAt.value)))
  }

  lemma ShrunkDisjoint(t: Table, t': Table)
    requires Disjoint(t) && Shrunk(t, t')
    ensures Disjoint(t')
  {
  }

  function SoftDeleteGrace(t: Table, sub: Id, now: Instant): Table {
    map i | i in t :: if LiveFrom(t[i], Grace, sub) then Deleted(t[i], now) else t[i]
  }

  predicate EndedBySubscription(e: Entitlement, sub: Id, endAt: Instant) {
    LiveFrom(e, Subscription, sub) && EndsAfter(e, endAt)
  }

  function EndActiveBySubscription(
    t: Table, sub: Id, endAt: Instant, now: Instant, reason: Option<RevokeReason>): Result<Table, Error>
  {
    if exists i :: i in t && EndedBySubscription(t[i], sub, endAt) && t[i].startAt >= endAt then Failure(InvalidEnd)
    else
      Success(map i | i in t ::
                if !EndedBySubscription(t[i], sub, endAt) then t[i]
                else if reason.None? then t[i].(endAt := Some(endAt))
                else t[i].(endAt := Some(endAt), revokedAt := Some(now), revokeReason := reason))
  }

  /** A one-off payment's indefinite rows; a revoked one is selected too. */
  predicate EndedByPayment(e: Entitlement, payment: Id) {
    From(e, OneOff, payment) && e.endAt.None? && e.deletedAt.None?
  }

  function EndActiveByPayment(
    t: Table, payment: Id, endAt: Instant, now: Instant, reason: Option<RevokeReason>): Result<Table, Error>
  {
    if exists i :: i in t && EndedByPayment(t[i], payment) && t[i].startAt >= endAt then Failure(InvalidEnd)
    else
      Success(map i | i in t ::
                if EndedByPayment(t[i], payment)
                then t[i].(endAt := Some(endAt), revokedAt := Some(now), revokeReason := reason) else t[i])
  }

  function RevokeById(t: Table, id: Id, now: Instant, reason: RevokeReason): Result<Table, Error> {
    if id !in t || !Live(t[id]) then Failure(NotFound)
    else Success(t[id := t[id].(revokedAt := Some(now), revokeReason := Some(reason))])
  }

  function RevokeBySubscriptionAndName(t: Table, sub: Id, name: string, at: Instant, reason: RevokeReason): Table {
    map i | i in t ::
      if LiveFrom(t[i], Subscription, sub) && t[i].name == name
      then t[i].(endAt := Some(at), revokedAt := Some(at), revokeReason := Some(reason)) else t[i]
  }

  /** The optional source filter of `RevokeExistingEntitlement`. */
  predicate Matches(e: Entitlement, sourceType: Option<SourceType>, sourceId: Option<Id>) {
    (sourceType.Some? ==> e.sourceType == sourceType.value) && (sourceId.Some? ==> e.sourceId == sourceId)
  }

  /** An active window is revoked, a future one deleted, a past one kept. */
  function RevokedOrDeleted(e: Entitlement, reason: RevokeReason, now: Instant): Entitlement {
    if e.startAt > now then Deleted(e, now)
    else if EndsAfter(e, now) then e.(revokedAt := Some(now), revokeReason := Some(reason))
    else e
  }

  function RevokeExisting(
    t: Table, userId: string, name: string, sourceType: Option<SourceType>, sourceId: Option<Id>,
    reason: RevokeReason, now: Instant): Result<Table, Error>
  {
    if userId == "" || name == "" then Failure(MissingKey)
    else
      Success(map i | i in t ::
                if Live(t[i]) && On(t[i], userId, name) && Matches(t[i], sourceType, sourceId)
                then RevokedOrDeleted(t[i], reason, now) else t[i])
  }

  /** The two statements of a revocation: the active windows first, then the future ones. */
  function RevokeActive(t: Table, userId: string, name: string, sourceType: Option<SourceType>, sourceId: Option<Id>,
                        reason: RevokeReason, now: Instant): Table {
    map i | i in t ::
      if On(t[i], userId, name) && ActiveAt(t[i], now) && Matches(t[i], sourceType, sourceId)
      then t[i].(revokedAt := Some(now), revokeReason := Some(reason)) else t[i]
  }

  function DeleteFuture(t: Table, userId: string, name: string, sourceType: Option<SourceType>, sourceId: Option<Id>,
                        now: Instant): Table {
    map i | i in t ::
      if On(t[i], userId, name) && Live(t[i]) && t[i].startAt > now && Matches(t[i], sourceType, sourceId)
      then Deleted(t[i], now) else t[i]
  }

  lemma RevokeExistingInTwo(t: Table, userId: string, name: string, sourceType: Option<SourceType>, sourceId: Option<Id>,
                            reason: RevokeReason, now: Instant)
    requires userId != "" && name != ""
    ensures RevokeExisting(t, userId, name, sourceType, sourceId, reason, now) ==
            Success(DeleteFuture(RevokeActive(t, userId, name, sourceType, sourceId, reason, now),
                                 userId, name, sourceType, sourceId, now))
  {
    var revoked := RevokeActive(t, userId, name, sourceType, sourceId, reason, now);
    var both := DeleteFuture(revoked, userId, name, sourceType, sourceId, now);
    var once := RevokeExisting(t, userId, name, sourceType, sourceId, reason, now).value;
    forall i | i in t
      ensures both[i] == once[i]
    {
      assert On(revoked[i], userId, name) <==> On(t[i], userId, name);
    }
    SameRows(t, both, once);
  }

  /** A request names either one entitlement, whose timeline is meant, or a user and a name. */
  function RevokeExistingRequest(
    t: Table, id: Option<Id>, userId: string, name: string, sourceType: Option<SourceType>, sourceId: Option<Id>,
    reason: RevokeReason, now: Instant): Result<Table, Error>
  {
    match id
    case None =>
      if userId == "" || name == "" then Failure(InvalidArgument)
      else RevokeExisting(t, userId, name, sourceType, sourceId, reason, now)
    case Some(i) =>
      if userId != "" || name != "" then Failure(InvalidArgument)
      else if i !in t then Failure(NotFound)
      else RevokeExisting(t, t[i].userId, t[i].name, sourceType, sourceId, reason, now)
  }

  // Each of them only shrinks windows, and never to nothing.

  lemma SoftDeleteGraceShrinks(t: Table, sub: Id, now: Instant)
    requires NonEmptyWindows(t)
    ensures Shrunk(t, SoftDeleteGrace(t, sub, now))
  {
  }

  lemma EndActiveBySubscriptionShrinks(t: Table, sub: Id, endAt: Instant, now: Instant, reason: Option<RevokeReason>)
    requires NonEmptyWindows(t)
    ensures var r := EndActiveBySubscription(t, sub, endAt, now, reason); r.Success? ==> Shrunk(t, r.value)
  {
  }

  lemma EndActiveByPaymentShrinks(t: Table, payment: Id, endAt: Instant, now: Instant, reason: Option<RevokeReason>)
    requires NonEmptyWindows(t)
    ensures var r := EndActiveByPayment(t, payment, endAt, now, reason); r.Success? ==> Shrunk(t, r.value)
  {
  }

  lemma RevokeByIdShrinks(t: Table, id: Id, now: Instant, reason: RevokeReason)
    requires NonEmptyWindows(t)
    ensures var r := RevokeById(t, id, now, reason); r.Success? ==> Shrunk(t, r.value)
  {
  }

  lemma RevokeByNameShrinks(t: Table, sub: Id, name: string, at: Instant, reason: RevokeReason)
    requires NonEmptyWindows(t)
    ensures Shrunk(t, RevokeBySubscriptionAndName(t, sub, name, at, reason))
  {
  }

  lemma RevokeExistingShrinks(t: Table, userId: string, name: string, sourceType: Option<SourceType>, sourceId: Option<Id>,
                              reason: RevokeReason, now: Instant)
    requires NonEmptyWindows(t)
    ensures var r := RevokeExisting(t, userId, name, sourceType, sourceId, reason, now); r.Success? ==> Shrunk(t, r.value)
  {
    var r := RevokeExisting(t, userId, name, sourceType, sourceId, reason, now);
    if r.Success? {
      assert forall i :: i in t && Live(r.value[i]) ==> r.value[i] == t[i];
    }
  }

  // What each of them leaves of the access of a user to a name, at any time.

  /** Access granted by a row not in `gone`. */
  ghost predicate EntitledWithout(t: Table, userId: string, name: string, at: Instant, gone: set<Id>) {
    exists i :: i in t && i !in gone && On(t[i], userId, name) && ActiveAt(t[i], at)
  }

  /**
   Ending a subscription fails exactly when a window it would end starts at `endAt` or
   later. Otherwise, without a reason, every access before `endAt` is what it was and from
   then on it is the access there was without the ended windows; with a reason it is
   that at all times, for the ended windows are revoked.
   */
  lemma EndActiveBySubscriptionAccess(
    t: Table, sub: Id, endAt: Instant, now: Instant, reason: Option<RevokeReason>, u: string, n: string, at: Instant)
    ensures var ended := set i | i in t && EndedBySubscription(t[i], sub, endAt);
            var r := EndActiveBySubscription(t, sub, endAt, now, reason);
            && (r.Failure? <==> exists i :: i in ended && t[i].startAt >= endAt)
            && (r.Success? ==>
                  (IsEntitled(r.value, u, n, at) <==>
                   if reason.None? && at < endAt then IsEntitled(t, u, n, at) else EntitledWithout(t, u, n, at, ended)))
  {
    var r := EndActiveBySubscription(t, sub, endAt, now, reason);
    if r.Success? {
      assert forall i :: i in t ==> On(r.value[i], u, n) == On(t[i], u, n);
    }
  }

  /**
   Ending a payment fails exactly when one of its indefinite rows, revoked or not, starts
   at `endAt` or later. Otherwise access is what it was without those rows, at all times.
   */
  lemma EndActiveByPaymentAccess(
    t: Table, payment: Id, endAt: Instant, now: Instant, reason: Option<RevokeReason>, u: string, n: string, at: Instant)
    ensures var ended := set i | i in t && EndedByPayment(t[i], payment);
            var r := EndActiveByPayment(t, payment, endAt, now, reason);
            && (r.Failure? <==> exists i :: i in ended && t[i].startAt >= endAt)
            && (r.Success? ==> (IsEntitled(r.value, u, n, at) <==> EntitledWithout(t, u, n, at, ended)))
  {
    var r := EndActiveByPayment(t, payment, endAt, now, reason);
    if r.Success? {
      assert forall i :: i in t ==> On(r.value[i], u, n) == On(t[i], u, n);
    }
  }

  /** Revoking a row takes away its access, at all times, and no other. */
  lemma RevokeByIdAccess(t: Table, id: Id, now: Instant, reason: RevokeReason, u: string, n: string, at: Instant)
    requires RevokeById(t, id, now, reason).Success?
    ensures IsEntitled(RevokeById(t, id, now, reason).value, u, n, at) <==> EntitledWithout(t, u, n, at, {id})
  {
    var t' := RevokeById(t, id, now, reason).value;
    assert forall i :: i in t ==> On(t'[i], u, n) == On(t[i], u, n);
  }

  /** Revoking a name of a subscription takes away the access of its live rows of that name, at all times, and no other. */
  lemma RevokeByNameAccess(t: Table, sub: Id, name: string, revokeAt: Instant, reason: RevokeReason, u: string, n: string, at: Instant)
    ensures var gone := set i | i in t && LiveFrom(t[i], Subscription, sub) && t[i].name == name;
            IsEntitled(RevokeBySubscriptionAndName(t, sub, name, revokeAt, reason), u, n, at) <==>
            EntitledWithout(t, u, n, at, gone)
  {
    var t' := RevokeBySubscriptionAndName(t, sub, name, revokeAt, reason);
    assert forall i :: i in t ==> On(t'[i], u, n) == On(t[i], u, n);
  }

  /** Deleting grace takes away the access of the subscription's live grace rows, at all times, and no other. */
  lemma SoftDeleteGraceAccess(t: Table, sub: Id, now: Instant, u: string, n: string, at: Instant)
    ensures var gone := set i | i in t && LiveFrom(t[i], Grace, sub);
            IsEntitled(SoftDeleteGrace(t, sub, now), u, n, at) <==> EntitledWithout(t, u, n, at, gone)
  {
    var t' := SoftDeleteGrace(t, sub, now);
    assert forall i :: i in t ==> On(t'[i], u, n) == On(t[i], u, n);
  }

  /** A row the revocation takes away: matching, and not over by `now`. */
  predicate Revocable(e: Entitlement, userId: string, name: string, sourceType: Option<SourceType>, sourceId: Option<Id>,
                      now: Instant) {
    On(e, userId, name) && Matches(e, sourceType, sourceId) && (e.startAt > now || EndsAfter(e, now))
  }

  /**
   Revoking what a user has of a name, under any source filter: access at any time is
   what it was without the matching windows that were not over by now.
   */
  lemma RevokeExistingAccess(t: Table, userId: string, name: string, sourceType: Option<SourceType>, sourceId: Option<Id>,
                             reason: RevokeReason, now: Instant, u: string, n: string, at: Instant)
    requires RevokeExisting(t, userId, name, sourceType, sourceId, reason, now).Success?
    ensures var gone := set i | i in t && Revocable(t[i], userId, name, sourceType, sourceId, now);
            IsEntitled(RevokeExisting(t, userId, name, sourceType, sourceId, reason, now).value, u, n, at) <==>
            EntitledWithout(t, u, n, at, gone)
  {
    var t' := RevokeExisting(t, userId, name, sourceType, sourceId, reason, now).value;
    forall i | i in t
      ensures On(t'[i], u, n) && ActiveAt(t'[i], at) <==>
              On(t[i], u, n) && ActiveAt(t[i], at) && !Revocable(t[i], userId, name, sourceType, sourceId, now)
    {
    }
    assert t'.Keys == t.Keys;
  }

  /** With no filter there is no access from now on. */
  lemma RevokeExistingEndsAccess(t: Table, userId: string, name: string, reason: RevokeReason, now: Instant, at: Instant)
    requires RevokeExisting(t, userId, name, None, None, reason, now).Success?
    requires at >= now
    ensures !IsEntitled(RevokeExisting(t, userId, name, None, None, reason, now).value, userId, name, at)
  {
    RevokeExistingAccess(t, userId, name, None, None, reason, now, userId, name, at);
  }

  // ----- resuming -----

  predicate Resumable(e: Entitlement, sub: Id, now: Instant) {
    LiveFrom(e, Subscription, sub) && e.endAt.Some? && e.endAt.value > now
  }

  function Resume(t: Table, sub: Id, now: Instant): Table {
    map i | i in t :: if Resumable(t[i], sub, now) then t[i].(endAt := None) else t[i]
  }

  /** Resuming clears ends and repairs nothing: it keeps the table disjoint exactly when every resumed window is the last of its timeline. */
  lemma ResumeDisjoint(t: Table, sub: Id, now: Instant)
    requires Disjoint(t)
    ensures Disjoint(Resume(t, sub, now)) <==>
            forall i, j :: i in t && j in t && Resumable(t[i], sub, now) ==> !IsLater(t, i, j)
  {
    var t' := Resume(t, sub, now);
    if i, j :| i in t && j in t && Resumable(t[i], sub, now) && IsLater(t, i, j) {
      assert Overlap(t'[i], t'[j]);
    } else {
      forall i, j | i in t' && j in t' && i != j && Live(t'[i]) && Live(t'[j]) && SameTimeline(t'[i], t'[j])
        ensures !Overlap(t'[i], t'[j])
      {
        assert !Overlap(t[i], t[j]);
        assert !IsLater(t, i, j) || !Resumable(t[i], sub, now);
        assert !IsLater(t, j, i) || !Resumable(t[j], sub, now);
      }
    }
  }

  /** Two windows of one timeline, the first of a subscription being resumed: afterwards they overlap. */
  lemma ResumeOverlaps()
    ensures var w := Entitlement("u", "premium", 0, Some(10 * SECOND), Subscription, Some(7), None, None, None);
            var next := w.(startAt := 10 * SECOND, endAt := Some(20 * SECOND), sourceType := OneOff);
            Disjoint(map[0 := w, 1 := next]) && !Disjoint(Resume(map[0 := w, 1 := next], 7, 5 * SECOND))
  {
    var w := Entitlement("u", "premium", 0, Some(10 * SECOND), Subscription, Some(7), None, None, None);
    var next := w.(startAt := 10 * SECOND, endAt := Some(20 * SECOND), sourceType := OneOff);
    var t := map[0 := w, 1 := next];
    assert Resumable(t[0], 7, 5 * SECOND) && IsLater(t, 0, 1);
    ResumeDisjoint(t, 7, 5 * SECOND);
  }

  // ----- new windows -----

  function Insert(t: Table, id: Id, e: Entitlement): Result<Table, Error> {
    if e.endAt.Some? && e.endAt.value <= e.startAt then Failure(InvalidEnd)
    else if id in t then Failure(DuplicateId)
    else Success(t[id := e])
  }

  /** A successful insert keeps the table disjoint exactly when the new live window meets no other of its timeline. */
  lemma InsertDisjoint(t: Table, id: Id, e: Entitlement)
    requires Disjoint(t)
    requires Insert(t, id, e).Success?
    ensures Disjoint(t[id := e]) <==>
            (Live(e) ==> forall i :: i in t && Live(t[i]) && SameTimeline(e, t[i]) ==> !Overlap(e, t[i]))
  {
    var t' := t[id := e];
    if Live(e) && exists i :: i in t && Live(t[i]) && SameTimeline(e, t[i]) && Overlap(e, t[i]) {
      var i :| i in t && Live(t[i]) && SameTimeline(e, t[i]) && Overlap(e, t[i]);
      assert Overlap(t'[id], t'[i]);
    } else {
      forall i, j | i in t' && j in t' && i != j && Live(t'[i]) && Live(t'[j]) && SameTimeline(t'[i], t'[j])
        ensures !Overlap(t'[i], t'[j])
      {
        assert i != id && j != id ==> !Overlap(t[i], t[j]);
      }
    }
  }

  datatype Push = Push(
    userId: string,
    name: string,
    notBefore: Option<Instant>,
    indefinite: bool,
    duration: Option<int>,
    endAt: Option<Instant>,
    sourceType: SourceType,
    sourceId: Option<Id>)

  /** `tail` is the latest finite end on the timeline, or nothing when no live window there is finite. */
  ghost predicate IsTailEnd(t: Table, userId: string, name: string, tail: Option<Instant>) {
    && (forall i :: i in t && Counts(t[i], userId, name) ==> tail.Some? && t[i].endAt.value <= tail.value)
    && (tail.Some? ==> exists i :: i in t && Counts(t[i], userId, name) && t[i].endAt == tail)
  }

  predicate ValidPush(p: Push) {
    && p.userId != "" && p.name != "" && p.sourceId.Some?
    && (if p.indefinite then p.duration.None? && p.endAt.None? else p.duration.Some? != p.endAt.Some?)
    && (p.duration.Some? ==> p.duration.value > 0)
  }

  /** The start of a pushed window: the latest of now, `notBefore` and the end of the tail. */
  function PushStart(p: Push, tail: Option<Instant>, now: Instant): Instant {
    var start := if p.notBefore.Some? && p.notBefore.value > now then p.notBefore.value else now;
    if tail.Some? && tail.value > start then tail.value else start
  }

  function PushNew(t: Table, id: Id, p: Push, tail: Option<Instant>, now: Instant): Result<Table, Error> {
    if !ValidPush(p) then Failure(InvalidArgument)
    else if exists i :: i in t && Live(t[i]) && On(t[i], p.userId, p.name) && t[i].endAt.None? then Success(t)
    else
      var start := PushStart(p, tail, now);
      var endAt := if p.indefinite then None
                   else if p.duration.Some? then Some(start + p.duration.value) else p.endAt;
      if endAt.Some? && endAt.value <= start then Success(t)
      else if id in t then Failure(DuplicateId)
      else Success(t[id := Entitlement(p.userId, p.name, start, endAt, p.sourceType, p.sourceId, None, None, None)])
  }

  /** Appending at the tail keeps every timeline disjoint, at any instants. */
  lemma PushDisjoint(t: Table, id: Id, p: Push, tail: Option<Instant>, now: Instant)
    requires Disjoint(t)
    requires IsTailEnd(t, p.userId, p.name, tail)
    ensures var r := PushNew(t, id, p, tail, now);
            r.Success? ==>
              && Disjoint(r.value)
              && (r.value != t ==>
                    forall i :: i in t && Live(t[i]) && On(t[i], p.userId, p.name) ==>
                      !EndsAfter(t[i], r.value[id].startAt))
  {
  }
}
