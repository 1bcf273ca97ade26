/**
 The repository object: a table of rows updated statement by statement, each method
 proved against the one-pass description of its effect.
 */
module EntitlementRepo {
  import opened Wrappers
  import opened Instants
  import opened EntitlementTable
  import opened EntitlementTimeline
  import opened EntitlementBulk
  import opened EntitlementLoops

  /** What a method leaves behind: the new table, or the old one and an error. */
  ghost predicate Did(before: Table, after: Table, err: Option<Error>, r: Result<Table, Error>) {
    match r
    case Success(t) => err == None && after == t
    case Failure(e) => err == Some(e) && after == before
  }

  /** The rows of a selection in an arbitrary order. */
  method InSomeOrder(ids: set<Id>) returns (order: seq<Id>)
    ensures IsOrdering(order, ids)
  {
    order := [];
    var todo := ids;
    while todo != {}
      invariant todo <= ids
      invariant IsOrdering(order, ids - todo)
    {
      var i :| i in todo;
      order := order + [i];
      todo := todo - {i};
    }
    assert ids - todo == ids;
  }

  class EntitlementRepo {
    var rows: Table

    constructor ()
      ensures rows == map[]
    {
      rows := map[];
    }

    method ShiftEntitlementTimeline(userId: string, name: string, from: Instant, delta: int, exclude: set<Id>)
      modifies this
      ensures rows == ShiftTimeline(old(rows), userId, name, from, delta, exclude)
    {
      if delta == 0 { return; }
      var deltaSeconds := WholeSeconds(delta);
      if deltaSeconds == 0 { return; }
      rows := map i | i in rows ::
        if On(rows[i], userId, name) && Live(rows[i]) && rows[i].startAt >= from && i !in exclude
        then Moved(rows[i], deltaSeconds * SECOND) else rows[i];
    }

    method SetEntitlementEndAtTx(id: Id, endAt: Option<Instant>, now: Instant) returns (err: Option<Error>)
      modifies this
      ensures Did(old(rows), rows, err, SetEndAt(old(rows), id, endAt, now))
    {
      if id !in rows { return Some(NotFound); }
      var ent := rows[id];
      if !Live(ent) { return None; }
      if endAt.Some? && endAt.value <= ent.startAt { return Some(InvalidEnd); }
      if !HasKey(ent) { return Some(MissingKey); }
      rows := rows[id := ent.(endAt := endAt)];
      if ent.endAt.Some? && endAt.Some? && endAt != ent.endAt {
        ShiftEntitlementTimeline(ent.userId, ent.name, ent.endAt.value, endAt.value - ent.endAt.value, {id});
        SetEndByShift(old(rows), id, endAt.value, now);
      } else if ent.endAt.Some? && endAt.None? {
        rows := DeleteFrom(rows, ent.userId, ent.name, ent.endAt.value, id, now);
        SetEndByDelete(old(rows), id, now);
      } else {
        SetEndAlone(old(rows), id, endAt, now);
      }
      return None;
    }

    method RevokeEntitlementNowTx(id: Id, revokeAt: Instant, reason: Option<RevokeReason>, now: Instant)
      returns (err: Option<Error>)
      modifies this
      ensures Did(old(rows), rows, err, RevokeNow(old(rows), id, revokeAt, reason, now))
    {
      if id !in rows { return Some(NotFound); }
      var ent := rows[id];
      if !Live(ent) { return None; }
      if revokeAt <= ent.startAt { return Some(InvalidRevoke); }
      if !HasKey(ent) { return Some(MissingKey); }
      rows := rows[id := ent.(endAt := Some(revokeAt), revokedAt := Some(now), revokeReason := reason)];
      if ent.endAt.Some? && revokeAt < ent.endAt.value {
        ShiftEntitlementTimeline(ent.userId, ent.name, ent.endAt.value, revokeAt - ent.endAt.value, {id});
      } else if ent.endAt.Some? && revokeAt > ent.endAt.value {
        ShiftEntitlementTimeline(ent.userId, ent.name, ent.endAt.value, revokeAt - ent.endAt.value, {id});
      }
      RevokeByShift(old(rows), id, revokeAt, reason, now);
      return None;
    }

    /** `order` is the order in which the select returned the rows. */
    method ExtendActiveBySubscription(sub: Id, endAt: Instant) returns (err: Option<Error>, ghost order: seq<Id>)
      modifies this
      ensures IsOrdering(order, ExtendSelection(old(rows), sub, endAt))
      ensures Did(old(rows), rows, err, ExtendRun(old(rows), old(rows), order, endAt))
    {
      var seen := rows;
      var ids := InSomeOrder(ExtendSelection(rows, sub, endAt));
      order := ids;
      assert forall i :: i in ids ==> i in seen;
      for k := 0 to |ids|
        invariant forall i :: i in ids[k..] ==> i in seen
        invariant ExtendRun(rows, seen, ids[k..], endAt) == ExtendRun(seen, seen, ids, endAt)
      {
        assert ids[k..][0] == ids[k] && ids[k..][1..] == ids[k + 1..];
        var ent := seen[ids[k]];
        if ent.endAt.Some? && endAt > ent.endAt.value {
          if endAt <= ent.startAt { rows := seen; return Some(InvalidEnd), order; }
          if !HasKey(ent) { rows := seen; return Some(MissingKey), order; }
          if ids[k] in rows && Live(rows[ids[k]]) && rows[ids[k]].endAt == ent.endAt {
            rows := rows[ids[k] := rows[ids[k]].(endAt := Some(endAt))];
          }
          ShiftEntitlementTimeline(ent.userId, ent.name, ent.endAt.value, endAt - ent.endAt.value, {ids[k]});
        }
      }
      return None, order;
    }

    method EndGraceNowBySubscription(sub: Id, now: Instant) returns (err: Option<Error>, ghost order: seq<Id>)
      modifies this
      ensures IsOrdering(order, GraceSelection(old(rows), sub, now))
      ensures Did(old(rows), rows, err, EndGraceNow(old(rows), sub, now, order))
    {
      var seen := rows;
      var ids := InSomeOrder(GraceSelection(rows, sub, now));
      order := ids;
      for k := 0 to |ids|
        invariant GraceRun(rows, ids[k..], now) == GraceRun(seen, ids, now)
      {
        assert ids[k..][0] == ids[k] && ids[k..][1..] == ids[k + 1..];
        var failed := SetEntitlementEndAtTx(ids[k], Some(now), now);
        if failed.Some? { rows := seen; return failed, order; }
      }
      rows := map i | i in rows ::
        if LiveFrom(rows[i], Grace, sub) && rows[i].startAt >= now then Deleted(rows[i], now) else rows[i];
      return None, order;
    }

    method SoftDeleteGraceBySubscription(sub: Id, now: Instant)
      modifies this
      ensures rows == SoftDeleteGrace(old(rows), sub, now)
    {
      rows := map i | i in rows :: if LiveFrom(rows[i], Grace, sub) then Deleted(rows[i], now) else rows[i];
    }

    method EndActiveBySubscription(sub: Id, endAt: Instant, now: Instant, reason: Option<RevokeReason>)
      returns (err: Option<Error>)
      modifies this
      ensures Did(old(rows), rows, err, EntitlementBulk.EndActiveBySubscription(old(rows), sub, endAt, now, reason))
    {
      var invalid := set i | i in rows && EndedBySubscription(rows[i], sub, endAt) && rows[i].startAt >= endAt;
      if invalid != {} {
        var i :| i in invalid;
        return Some(InvalidEnd);
      }
      assert forall i :: i in rows ==> i !in invalid;
      rows := map i | i in rows ::
        if !EndedBySubscription(rows[i], sub, endAt) then rows[i]
        else
          var ended := rows[i].(endAt := Some(endAt));
          if reason.None? then ended else ended.(revokedAt := Some(now), revokeReason := reason);
      SameRows(old(rows), rows, EntitlementBulk.EndActiveBySubscription(old(rows), sub, endAt, now, reason).value);
      return None;
    }

    method ResumeBySubscription(sub: Id, now: Instant)
      modifies this
      ensures rows == Resume(old(rows), sub, now)
    {
      rows := map i | i in rows :: if Resumable(rows[i], sub, now) then rows[i].(endAt := None) else rows[i];
    }

    method EndActiveByPayment(payment: Id, endAt: Instant, now: Instant, reason: Option<RevokeReason>)
      returns (err: Option<Error>)
      modifies this
      ensures Did(old(rows), rows, err, EntitlementBulk.EndActiveByPayment(old(rows), payment, endAt, now, reason))
    {
      var invalid := set i | i in rows && EndedByPayment(rows[i], payment) && rows[i].startAt >= endAt;
      if invalid != {} {
        var i :| i in invalid;
        return Some(InvalidEnd);
      }
      assert forall i :: i in rows ==> i !in invalid;
      rows := map i | i in rows ::
        if EndedByPayment(rows[i], payment)
        then rows[i].(endAt := Some(endAt), revokedAt := Some(now), revokeReason := reason) else rows[i];
      return None;
    }

    method RevokeByID(id: Id, now: Instant, reason: RevokeReason) returns (err: Option<Error>)
      modifies this
      ensures Did(old(rows), rows, err, RevokeById(old(rows), id, now, reason))
    {
      if id !in rows || !Live(rows[id]) { return Some(NotFound); }
      rows := rows[id := rows[id].(revokedAt := Some(now), revokeReason := Some(reason))];
      return None;
    }

    method RevokeBySubscriptionAndName(sub: Id, name: string, revokeAt: Instant, reason: RevokeReason)
      modifies this
      ensures rows == EntitlementBulk.RevokeBySubscriptionAndName(old(rows), sub, name, revokeAt, reason)
    {
      rows := map i | i in rows ::
        if LiveFrom(rows[i], Subscription, sub) && rows[i].name == name
        then rows[i].(endAt := Some(revokeAt), revokedAt := Some(revokeAt), revokeReason := Some(reason)) else rows[i];
    }

    /** Two statements: the active windows are revoked, then the future ones deleted. */
    method RevokeExistingEntitlement(
      id: Option<Id>, userId: string, name: string, sourceType: Option<SourceType>, sourceId: Option<Id>,
      reason: RevokeReason, now: Instant) returns (err: Option<Error>)
      modifies this
      ensures Did(old(rows), rows, err,
                  RevokeExistingRequest(old(rows), id, userId, name, sourceType, sourceId, reason, now))
    {
      if id.None? && (userId == "" || name == "") { return Some(InvalidArgument); }
      if id.Some? && (userId != "" || name != "") { return Some(InvalidArgument); }
      var u, n := userId, name;
      if id.Some? {
        if id.value !in rows { return Some(NotFound); }
        u, n := rows[id.value].userId, rows[id.value].name;
      }
      if u == "" || n == "" { return Some(MissingKey); }
      rows := RevokeActive(rows, u, n, sourceType, sourceId, reason, now);
      rows := DeleteFuture(rows, u, n, sourceType, sourceId, now);
      RevokeExistingInTwo(old(rows), u, n, sourceType, sourceId, reason, now);
      return None;
    }

    method Insert(id: Id, row: Entitlement) returns (err: Option<Error>)
      modifies this
      ensures Did(old(rows), rows, err, EntitlementBulk.Insert(old(rows), id, row))
    {
      if row.endAt.Some? && row.endAt.value <= row.startAt { return Some(InvalidEnd); }
      if id in rows { return Some(DuplicateId); }
      rows := rows[id := row];
      return None;
    }

    /** `MAX(end_at)` over the finite live windows of a timeline. */
    method TailEnd(userId: string, name: string) returns (tail: Option<Instant>)
      ensures IsTailEnd(rows, userId, name, tail)
    {
      tail := None;
      var todo := rows.Keys;
      while todo != {}
        invariant todo <= rows.Keys
        invariant forall i :: i in rows && i !in todo && Counts(rows[i], userId, name) ==>
          tail.Some? && rows[i].endAt.value <= tail.value
        invariant tail.Some? ==> exists i :: i in rows && Counts(rows[i], userId, name) && rows[i].endAt == tail
      {
        var i :| i in todo;
        if Counts(rows[i], userId, name) && (tail.None? || rows[i].endAt.value > tail.value) {
          tail := rows[i].endAt;
        }
        todo := todo - {i};
      }
    }

    /** Appends a window at the tail of its timeline; `id` is the identifier drawn for it. */
    method PushNewEntitlement(p: Push, id: Id, now: Instant) returns (err: Option<Error>, ghost tail: Option<Instant>)
      modifies this
      ensures IsTailEnd(old(rows), p.userId, p.name, tail)
      ensures Did(old(rows), rows, err, PushNew(old(rows), id, p, tail, now))
    {
      var end := TailEnd(p.userId, p.name);
      tail := end;
      if !ValidPush(p) { return Some(InvalidArgument), tail; }
      if exists i :: i in rows && Live(rows[i]) && On(rows[i], p.userId, p.name) && rows[i].endAt.None? {
        return None, tail;
      }
      var start := now;
      if p.notBefore.Some? && p.notBefore.value > start { start := p.notBefore.value; }
      if end.Some? && end.value > start { start := end.value; }
      var endAt := None;
      if p.duration.Some? {
        endAt := Some(start + p.duration.value);
      } else if p.endAt.Some? {
        if p.endAt.value <= start { return None, tail; }
        endAt := p.endAt;
      }
      if id in rows { return Some(DuplicateId), tail; }
      rows := rows[id := Entitlement(p.userId, p.name, start, endAt, p.sourceType, p.sourceId, None, None, None)];
      return None, tail;
    }

    /** The finite active row that ends last, if there is one. */
    method GetLatestFiniteActive(userId: string, name: string, at: Instant) returns (row: Option<Id>)
      ensures IsLatestFiniteActive(rows, userId, name, at, row)
    {
      row := None;
      var todo := rows.Keys;
      while todo != {}
        invariant todo <= rows.Keys
        invariant row.Some? ==> row.value in rows && FiniteActive(rows[row.value], userId, name, at)
        invariant forall j :: j in rows && j !in todo && FiniteActive(rows[j], userId, name, at) ==>
          row.Some? && rows[j].endAt.value <= rows[row.value].endAt.value
      {
        var i :| i in todo;
        if FiniteActive(rows[i], userId, name, at) &&
           (row.None? || rows[i].endAt.value > rows[row.value].endAt.value) {
          row := Some(i);
        }
        todo := todo - {i};
      }
    }
  }
}
