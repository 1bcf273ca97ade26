/**
 What each operation on entitlements writes: which rows it selects, what it stores in
 their columns, what it leaves alone, and when it refuses. `i` is any row of the table.
 */
module EntitlementEffects {
  import opened Wrappers
  import opened Instants
  import opened EntitlementTable
  import opened EntitlementTimeline
  import opened EntitlementBulk
  import opened EntitlementLoops

  /**
   `e` is row `i` after the finite end of row `id` has moved to `end`: a live window of
   the same user and name that starts at or after the old end moves by the whole seconds of
   the change, start and end alike; any other row is as it was.
   */
  ghost predicate Follows(t: Table, id: Id, end: Instant, i: Id, e: Entitlement)
    requires id in t && i in t
  {
    if t[id].endAt.Some? && Live(t[i]) && t[i].userId == t[id].userId && t[i].name == t[id].name &&
       t[i].startAt >= t[id].endAt.value
    then
      var d := ShiftOf(end - t[id].endAt.value);
      && e.startAt == t[i].startAt + d
      && (if t[i].endAt.Some? then e.endAt == Some(t[i].endAt.value + d) else e.endAt == None)
      && e == t[i].(startAt := e.startAt, endAt := e.endAt)
    else e == t[i]
  }

  /** `e` is row `i` after the finite end of row `id` has become indefinite: what started at or after it is deleted. */
  ghost predicate GivesWay(t: Table, id: Id, now: Instant, i: Id, e: Entitlement)
    requires id in t && i in t
  {
    if t[id].endAt.Some? && Live(t[i]) && t[i].userId == t[id].userId && t[i].name == t[id].name &&
       t[i].startAt >= t[id].endAt.value
    then e == t[i].(deletedAt := Some(now))
    else e == t[i]
  }

  /** Setting an end. A row revoked or deleted before is left alone, without an error. */
  lemma SetEndAtWrites(t: Table, id: Id, newEnd: Option<Instant>, now: Instant, i: Id)
    requires i in t
    ensures var r := SetEndAt(t, id, newEnd, now);
            if id !in t then r == Failure(NotFound)
            else if t[id].revokedAt.Some? || t[id].deletedAt.Some? then r == Success(t)
            else if newEnd.Some? && newEnd.value <= t[id].startAt then r == Failure(InvalidEnd)
            else if t[id].userId == "" || t[id].name == "" then r == Failure(MissingKey)
            else
              && r.Success? && r.value.Keys == t.Keys
              && r.value[id] == t[id].(endAt := newEnd)
              && (i != id ==>
                    if newEnd.Some? then Follows(t, id, newEnd.value, i, r.value[i]) else GivesWay(t, id, now, i, r.value[i]))
  {
  }

  /** Revoking now. */
  lemma RevokeNowWrites(t: Table, id: Id, at: Instant, reason: Option<RevokeReason>, now: Instant, i: Id)
    requires i in t
    ensures var r := RevokeNow(t, id, at, reason, now);
            if id !in t then r == Failure(NotFound)
            else if t[id].revokedAt.Some? || t[id].deletedAt.Some? then r == Success(t)
            else if at <= t[id].startAt then r == Failure(InvalidRevoke)
            else if t[id].userId == "" || t[id].name == "" then r == Failure(MissingKey)
            else
              && r.Success? && r.value.Keys == t.Keys
              && r.value[id] == t[id].(endAt := Some(at), revokedAt := Some(now), revokeReason := reason)
              && (i != id ==> Follows(t, id, at, i, r.value[i]))
  {
  }

  /**
   One round of the extension loop, for a row read as `seen` before the loop: the end is
   written only while the stored one is still the one read, and the windows behind the end
   read follow the change in either case.
   */
  lemma ExtendRoundWrites(t: Table, id: Id, seen: Entitlement, endAt: Instant, i: Id)
    requires i in t
    requires seen.endAt.Some? && seen.endAt.value < endAt && seen.startAt < endAt
    ensures var r := ExtendOne(t, id, seen, endAt);
            if seen.userId == "" || seen.name == "" then r == Failure(MissingKey)
            else
              && r.Success? && r.value.Keys == t.Keys
              && (i == id ==> r.value[i] == if Live(t[i]) && t[i].endAt == seen.endAt then t[i].(endAt := Some(endAt)) else t[i])
              && (i != id ==>
                    var d := ShiftOf(endAt - seen.endAt.value);
                    if Live(t[i]) && t[i].userId == seen.userId && t[i].name == seen.name && t[i].startAt >= seen.endAt.value
                    then r.value[i] == t[i].(startAt := t[i].startAt + d,
                                             endAt := if t[i].endAt.None? then None else Some(t[i].endAt.value + d))
                    else r.value[i] == t[i])
  {
  }

  /** Row `i` after the selected windows, on distinct timelines, have been given the end `endAt`. */
  lemma EndsMovedWrites(t: Table, ids: set<Id>, endAt: Instant, i: Id)
    requires Movable(t, ids, endAt) && DistinctTimelines(t, ids) && i in t
    ensures var e := EndsMoved(t, ids, endAt)[i];
            && (i in ids ==> e == t[i].(endAt := Some(endAt)))
            && (i !in ids ==>
                  && (forall s :: s in ids && IsLater(t, s, i) ==> Follows(t, s, endAt, i, e))
                  && ((forall s :: s in ids ==> !IsLater(t, s, i)) ==> e == t[i]))
  {
  }

  /**
   Extending, the selected windows on distinct timelines, in any order: the live windows
   of the subscription that end before `endAt` end there, the windows behind each follow
   its change, and nothing else is touched.
   */
  lemma ExtendWrites(t: Table, sub: Id, endAt: Instant, order: seq<Id>, i: Id)
    requires NonEmptyWindows(t) && i in t
    requires IsOrdering(order, ExtendSelection(t, sub, endAt)) && DistinctTimelines(t, ExtendSelection(t, sub, endAt))
    ensures var ids := set s | s in t && t[s].sourceType == Subscription && t[s].sourceId == Some(sub) && Live(t[s]) &&
                               t[s].endAt.Some? && t[s].endAt.value < endAt;
            var r := ExtendRun(t, t, order, endAt);
            if exists s :: s in ids && (t[s].userId == "" || t[s].name == "") then r == Failure(MissingKey)
            else
              && r.Success? && r.value.Keys == t.Keys
              && (i in ids ==> r.value[i] == t[i].(endAt := Some(endAt)))
              && (i !in ids ==>
                    && (forall s :: s in ids && IsLater(t, s, i) ==> Follows(t, s, endAt, i, r.value[i]))
                    && ((forall s :: s in ids ==> !IsLater(t, s, i)) ==> r.value[i] == t[i]))
  {
    var ids := set s | s in t && t[s].sourceType == Subscription && t[s].sourceId == Some(sub) && Live(t[s]) &&
                       t[s].endAt.Some? && t[s].endAt.value < endAt;
    assert ids == ExtendSelection(t, sub, endAt);
    ExtendOutcome(t, sub, endAt, order, ids, i);
  }

  lemma ExtendOutcome(t: Table, sub: Id, endAt: Instant, order: seq<Id>, ids: set<Id>, i: Id)
    requires NonEmptyWindows(t) && i in t
    requires ids == ExtendSelection(t, sub, endAt) && IsOrdering(order, ids) && DistinctTimelines(t, ids)
    ensures var r := ExtendRun(t, t, order, endAt);
            if exists s :: s in ids && !HasKey(t[s]) then r == Failure(MissingKey)
            else
              && r.Success? && r.value.Keys == t.Keys
              && (i in ids ==> r.value[i] == t[i].(endAt := Some(endAt)))
              && (i !in ids ==>
                    && (forall s :: s in ids && IsLater(t, s, i) ==> Follows(t, s, endAt, i, r.value[i]))
                    && ((forall s :: s in ids ==> !IsLater(t, s, i)) ==> r.value[i] == t[i]))
  {
    ExtendAnyOrder(t, sub, endAt, order);
    EndsMovedWrites(t, ids, endAt, i);
  }

  /**
   Ending grace on a disjoint table, in any order: a running grace window of the
   subscription ends now and the windows behind it follow, one to come is deleted, one that
   is over or indefinite is left, and nothing else is touched.
   */
  lemma EndGraceWrites(t: Table, sub: Id, now: Instant, order: seq<Id>, i: Id)
    requires Disjoint(t) && i in t && IsOrdering(order, GraceSelection(t, sub, now))
    ensures var running := set s | s in t && t[s].sourceType == Grace && t[s].sourceId == Some(sub) && Live(t[s]) &&
                                   t[s].endAt.Some? && t[s].startAt < now < t[s].endAt.value;
            var r := EndGraceNow(t, sub, now, order);
            if exists s :: s in running && (t[s].userId == "" || t[s].name == "") then r == Failure(MissingKey)
            else
              && r.Success? && r.value.Keys == t.Keys
              && GraceEnded(t, sub, now, running, i, r.value[i])
  {
    var running := set s | s in t && t[s].sourceType == Grace && t[s].sourceId == Some(sub) && Live(t[s]) &&
                           t[s].endAt.Some? && t[s].startAt < now < t[s].endAt.value;
    assert running == GraceSelection(t, sub, now);
    EndGraceOutcome(t, sub, now, order, running, i);
  }

  lemma EndGraceOutcome(t: Table, sub: Id, now: Instant, order: seq<Id>, running: set<Id>, i: Id)
    requires Disjoint(t) && i in t && IsOrdering(order, running) && running == GraceSelection(t, sub, now)
    ensures var r := EndGraceNow(t, sub, now, order);
            if exists s :: s in running && !HasKey(t[s]) then r == Failure(MissingKey)
            else r.Success? && r.value.Keys == t.Keys && GraceEnded(t, sub, now, running, i, r.value[i])
  {
    EndGraceAnyOrder(t, sub, now, order);
    GraceSelectionDistinct(t, sub, now);
    GraceEndedRow(t, sub, now, i);
  }

  ghost predicate GraceEnded(t: Table, sub: Id, now: Instant, running: set<Id>, i: Id, e: Entitlement)
    requires i in t && running <= t.Keys
  {
    var grace := t[i].sourceType == Grace && t[i].sourceId == Some(sub) && Live(t[i]);
    && (i in running ==> e == t[i].(endAt := Some(now)))
    && (grace && t[i].startAt < now && i !in running ==> e == t[i])
    && (grace && t[i].startAt >= now ==>
          e.deletedAt == Some(now) && e == t[i].(startAt := e.startAt, endAt := e.endAt, deletedAt := e.deletedAt))
    && (!grace ==>
          && (forall s :: s in running && IsLater(t, s, i) ==> Follows(t, s, now, i, e))
          && ((forall s :: s in running ==> !IsLater(t, s, i)) ==> e == t[i]))
  }

  lemma GraceEndedRow(t: Table, sub: Id, now: Instant, i: Id)
    requires i in t
    requires Movable(t, GraceSelection(t, sub, now), now) && DistinctTimelines(t, GraceSelection(t, sub, now))
    ensures GraceEnded(t, sub, now, GraceSelection(t, sub, now), i,
                       DeleteFutureGrace(EndsMoved(t, GraceSelection(t, sub, now), now), sub, now)[i])
  {
    EndsMovedWrites(t, GraceSelection(t, sub, now), now, i);
  }

  /** Resuming: the live windows of the subscription that end after now become indefinite, nothing else changes. */
  lemma ResumeWrites(t: Table, sub: Id, now: Instant, i: Id)
    requires i in t
    ensures var resumed := t[i].sourceType == Subscription && t[i].sourceId == Some(sub) && Live(t[i]) &&
                           t[i].endAt.Some? && t[i].endAt.value > now;
            && Resume(t, sub, now).Keys == t.Keys
            && Resume(t, sub, now)[i] == if resumed then t[i].(endAt := None) else t[i]
  {
  }

  /** Access after resuming is the old access and, for the resumed windows, access for ever from their starts. */
  lemma ResumeAccess(t: Table, sub: Id, now: Instant, u: string, n: string, at: Instant)
    ensures IsEntitled(Resume(t, sub, now), u, n, at) <==>
            || IsEntitled(t, u, n, at)
            || exists i :: i in t && On(t[i], u, n) && Live(t[i]) && t[i].startAt <= at &&
                           t[i].sourceType == Subscription && t[i].sourceId == Some(sub) &&
                           t[i].endAt.Some? && t[i].endAt.value > now
  {
    var t' := Resume(t, sub, now);
    forall i | i in t
      ensures On(t'[i], u, n) && ActiveAt(t'[i], at) <==>
              On(t[i], u, n) && (ActiveAt(t[i], at) || (Resumable(t[i], sub, now) && t[i].startAt <= at))
    {
    }
    assert t'.Keys == t.Keys;
  }

  lemma InsertWrites(t: Table, id: Id, row: Entitlement)
    ensures var r := EntitlementBulk.Insert(t, id, row);
            if row.endAt.Some? && row.endAt.value <= row.startAt then r == Failure(InvalidEnd)
            else if id in t then r == Failure(DuplicateId)
            else r.Success? && r.value.Keys == t.Keys + {id} && r.value[id] == row && forall i :: i in t ==> r.value[i] == t[i]
  {
  }

  /** The start of a pushed window: the first instant not before now, `notBefore`, or the end of a live window of the timeline. */
  ghost predicate IsPushStart(t: Table, p: Push, now: Instant, start: Instant) {
    && now <= start && (p.notBefore.Some? ==> p.notBefore.value <= start)
    && (forall i :: i in t && Live(t[i]) && On(t[i], p.userId, p.name) && t[i].endAt.Some? ==> t[i].endAt.value <= start)
    && (|| start == now || Some(start) == p.notBefore
        || exists i :: i in t && Live(t[i]) && On(t[i], p.userId, p.name) && t[i].endAt == Some(start))
  }

  lemma PushStarts(t: Table, p: Push, tail: Option<Instant>, now: Instant)
    requires IsTailEnd(t, p.userId, p.name, tail)
    ensures IsPushStart(t, p, now, PushStart(p, tail, now))
  {
  }

  /**
   Appending. A request names a user, a name and a source and says in exactly one way how
   long. Behind an indefinite window, or with an end given that is not after the start,
   nothing happens; otherwise one row is added.
   */
  lemma PushWrites(t: Table, id: Id, p: Push, tail: Option<Instant>, now: Instant, start: Instant)
    requires IsTailEnd(t, p.userId, p.name, tail) && IsPushStart(t, p, now, start)
    ensures var r := PushNew(t, id, p, tail, now);
            var ways := (if p.indefinite then 1 else 0) + (if p.duration.Some? then 1 else 0) + (if p.endAt.Some? then 1 else 0);
            if p.userId == "" || p.name == "" || p.sourceId.None? || ways != 1 || (p.duration.Some? && p.duration.value <= 0)
            then r == Failure(InvalidArgument)
            else if exists i :: i in t && Live(t[i]) && On(t[i], p.userId, p.name) && t[i].endAt.None? then r == Success(t)
            else if p.endAt.Some? && p.endAt.value <= start then r == Success(t)
            else if id in t then r == Failure(DuplicateId)
            else
              && r.Success? && r.value.Keys == t.Keys + {id} && (forall i :: i in t ==> r.value[i] == t[i])
              && var row := r.value[id];
              && row.startAt == start
              && (if p.indefinite then row.endAt == None
                  else if p.duration.Some? then row.endAt == Some(start + p.duration.value) else row.endAt == p.endAt)
              && row.userId == p.userId && row.name == p.name
              && row.sourceType == p.sourceType && row.sourceId == p.sourceId
              && row.revokedAt == None && row.revokeReason == None && row.deletedAt == None
  {
    PushStarts(t, p, tail, now);
  }

  /** Ending by subscription: of the live windows that run past `endAt`, the end and, with a reason, the marks. */
  lemma EndBySubscriptionWrites(t: Table, sub: Id, endAt: Instant, now: Instant, reason: Option<RevokeReason>, i: Id)
    requires i in t
    ensures var ended := set s | s in t && t[s].sourceType == Subscription && t[s].sourceId == Some(sub) && Live(t[s]) &&
                                 (t[s].endAt.Some? ==> t[s].endAt.value > endAt);
            var r := EndActiveBySubscription(t, sub, endAt, now, reason);
            if exists s :: s in ended && t[s].startAt >= endAt then r == Failure(InvalidEnd)
            else
              && r.Success? && r.value.Keys == t.Keys
              && (i !in ended ==> r.value[i] == t[i])
              && (i in ended ==>
                    && r.value[i].endAt == Some(endAt)
                    && (reason.Some? ==> r.value[i].revokedAt == Some(now) && r.value[i].revokeReason == reason)
                    && r.value[i] == t[i].(endAt := Some(endAt), revokedAt := r.value[i].revokedAt,
                                           revokeReason := r.value[i].revokeReason)
                    && (reason.None? ==> r.value[i].revokedAt == None && r.value[i].revokeReason == t[i].revokeReason))
  {
  }

  /** Ending by payment: the indefinite rows of the payment that are not deleted, revoked or not. */
  lemma EndByPaymentWrites(t: Table, payment: Id, endAt: Instant, now: Instant, reason: Option<RevokeReason>, i: Id)
    requires i in t
    ensures var ended := set s | s in t && t[s].sourceType == OneOff && t[s].sourceId == Some(payment) &&
                                 t[s].endAt.None? && t[s].deletedAt.None?;
            var r := EndActiveByPayment(t, payment, endAt, now, reason);
            if exists s :: s in ended && t[s].startAt >= endAt then r == Failure(InvalidEnd)
            else
              && r.Success? && r.value.Keys == t.Keys
              && r.value[i] == if i in ended then t[i].(endAt := Some(endAt), revokedAt := Some(now), revokeReason := reason)
                               else t[i]
  {
  }

  lemma RevokeByIdWrites(t: Table, id: Id, now: Instant, reason: RevokeReason)
    ensures var r := EntitlementBulk.RevokeById(t, id, now, reason);
            if id !in t || t[id].revokedAt.Some? || t[id].deletedAt.Some? then r == Failure(NotFound)
            else
              && r.Success? && r.value.Keys == t.Keys && (forall i :: i in t && i != id ==> r.value[i] == t[i])
              && r.value[id] == t[id].(revokedAt := Some(now), revokeReason := Some(reason))
  {
  }

  lemma RevokeByNameWrites(t: Table, sub: Id, name: string, at: Instant, reason: RevokeReason, i: Id)
    requires i in t
    ensures var gone := t[i].sourceType == Subscription && t[i].sourceId == Some(sub) && t[i].name == name && Live(t[i]);
            var t' := RevokeBySubscriptionAndName(t, sub, name, at, reason);
            && t'.Keys == t.Keys
            && t'[i] == if gone then t[i].(endAt := Some(at), revokedAt := Some(at), revokeReason := Some(reason)) else t[i]
  {
  }

  lemma SoftDeleteGraceWrites(t: Table, sub: Id, now: Instant, i: Id)
    requires i in t
    ensures var gone := t[i].sourceType == Grace && t[i].sourceId == Some(sub) && Live(t[i]);
            && SoftDeleteGrace(t, sub, now).Keys == t.Keys
            && SoftDeleteGrace(t, sub, now)[i] == if gone then t[i].(deletedAt := Some(now)) else t[i]
  {
  }

  // ----- revoking what a user has of a name -----

  /** The user and name a request means: its own, or those of the entitlement it names. */
  ghost predicate MeansTimeline(t: Table, id: Option<Id>, userId: string, name: string, u: string, n: string) {
    if id.Some? then id.value in t && t[id.value].userId == u && t[id.value].name == n else u == userId && n == name
  }

  /** Of the live windows that match the filter those running are revoked, those to come are deleted, those over are left. */
  ghost predicate Withdrawn(
    was: Entitlement, u: string, n: string, sourceType: Option<SourceType>, sourceId: Option<Id>,
    reason: RevokeReason, now: Instant, e: Entitlement)
  {
    var meant :=
      && Live(was) && was.userId == u && was.name == n
      && (sourceType.Some? ==> was.sourceType == sourceType.value) && (sourceId.Some? ==> was.sourceId == Some(sourceId.value));
    if meant && was.startAt > now then e == was.(deletedAt := Some(now))
    else if meant && (was.endAt.Some? ==> was.endAt.value > now)
    then e == was.(revokedAt := Some(now), revokeReason := Some(reason))
    else e == was
  }

  lemma RevokeExistingWrites(
    t: Table, u: string, n: string, sourceType: Option<SourceType>, sourceId: Option<Id>,
    reason: RevokeReason, now: Instant, i: Id)
    requires i in t
    ensures var r := RevokeExisting(t, u, n, sourceType, sourceId, reason, now);
            if u == "" || n == "" then r == Failure(MissingKey)
            else r.Success? && r.value.Keys == t.Keys && Withdrawn(t[i], u, n, sourceType, sourceId, reason, now, r.value[i])
  {
  }

  /** A request by id gives neither user nor name, one by user and name gives both. */
  lemma RevokeRequestWrites(
    t: Table, id: Option<Id>, userId: string, name: string, sourceType: Option<SourceType>, sourceId: Option<Id>,
    reason: RevokeReason, now: Instant, u: string, n: string, i: Id)
    requires i in t
    requires MeansTimeline(t, id, userId, name, u, n)
    ensures var r := RevokeExistingRequest(t, id, userId, name, sourceType, sourceId, reason, now);
            if (if id.Some? then userId != "" || name != "" else userId == "" || name == "") then r == Failure(InvalidArgument)
            else if u == "" || n == "" then r == Failure(MissingKey)
            else r.Success? && r.value.Keys == t.Keys && Withdrawn(t[i], u, n, sourceType, sourceId, reason, now, r.value[i])
  {
    RevokeExistingWrites(t, u, n, sourceType, sourceId, reason, now, i);
  }

  /** A request for an entitlement that is not there is refused. */
  lemma RevokeRequestNotFound(t: Table, id: Id, sourceType: Option<SourceType>, sourceId: Option<Id>, reason: RevokeReason, now: Instant)
    requires id !in t
    ensures RevokeExistingRequest(t, Some(id), "", "", sourceType, sourceId, reason, now) == Failure(NotFound)
  {
  }

  /**
   Access after a request that succeeds is what it was without the matching windows of the
   timeline meant that were not over by now; with no filter none is left of that timeline
   from now on.
   */
  lemma RevokeRequestAccess(
    t: Table, id: Option<Id>, userId: string, name: string, sourceType: Option<SourceType>, sourceId: Option<Id>,
    reason: RevokeReason, now: Instant, u: string, n: string, user: string, what: string, at: Instant)
    requires MeansTimeline(t, id, userId, name, u, n)
    requires RevokeExistingRequest(t, id, userId, name, sourceType, sourceId, reason, now).Success?
    ensures var t' := RevokeExistingRequest(t, id, userId, name, sourceType, sourceId, reason, now).value;
            var gone := set i | i in t && t[i].userId == u && t[i].name == n &&
                                (sourceType.Some? ==> t[i].sourceType == sourceType.value) &&
                                (sourceId.Some? ==> t[i].sourceId == Some(sourceId.value)) &&
                                (t[i].startAt > now || t[i].endAt.None? || t[i].endAt.value > now);
            && (IsEntitled(t', user, what, at) <==> EntitledWithout(t, user, what, at, gone))
            && (sourceType.None? && sourceId.None? && at >= now ==> !IsEntitled(t', u, n, at))
  {
    RevokeExistingAccess(t, u, n, sourceType, sourceId, reason, now, user, what, at);
    if sourceType.None? && sourceId.None? && at >= now {
      RevokeExistingEndsAccess(t, u, n, reason, now, at);
    }
  }
}
