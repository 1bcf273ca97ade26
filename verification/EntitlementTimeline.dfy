/**
 Editing one window and repairing the rest of its timeline: setting an end,
 revoking now, and what each of them keeps.

 Each edit is given here as one pass over the table, row by row; the repository
 reaches the same table in two statements (see EntitlementRepo).
 */
module EntitlementTimeline {
  import opened Wrappers
  import opened Instants
  import opened EntitlementTable

  function Moved(e: Entitlement, d: int): Entitlement {
    e.(startAt := e.startAt + d,
       endAt := if e.endAt.None? then None else Some(e.endAt.value + d))
  }

  function Deleted(e: Entitlement, now: Instant): Entitlement {
    e.(deletedAt := Some(now))
  }

  /** The shift statement: every live window of the timeline starting at or after `from` moves by the whole seconds of `delta`. */
  function ShiftTimeline(t: Table, userId: string, name: string, from: Instant, delta: int, exclude: set<Id>): Table {
    if ShiftOf(delta) == 0 then t
    else
      map i | i in t ::
        if On(t[i], userId, name) && Live(t[i]) && t[i].startAt >= from && i !in exclude
        then Moved(t[i], ShiftOf(delta)) else t[i]
  }

  /** Row `i` is a live window of the timeline of `id` starting at or after the (finite) end of `id`. */
  predicate IsLater(t: Table, id: Id, i: Id)
    requires id in t && i in t
  {
    && i != id
    && t[id].endAt.Some?
    && Live(t[i])
    && SameTimeline(t[id], t[i])
    && t[i].startAt >= t[id].endAt.value
  }

  /** What setting the end of the live row `id` makes of row `i`. */
  function SetEndRow(t: Table, id: Id, newEnd: Option<Instant>, now: Instant, i: Id): Entitlement
    requires id in t && i in t
  {
    if i == id then t[i].(endAt := newEnd)
    else if !IsLater(t, id, i) then t[i]
    else match newEnd
      case None => Deleted(t[i], now)
      case Some(e) => Moved(t[i], ShiftOf(e - t[id].endAt.value))
  }

  function SetEnd(t: Table, id: Id, newEnd: Option<Instant>, now: Instant): Table
    requires id in t
  {
    map i | i in t :: SetEndRow(t, id, newEnd, now, i)
  }

  function SetEndAt(t: Table, id: Id, newEnd: Option<Instant>, now: Instant): Result<Table, Error> {
    if id !in t then Failure(NotFound)
    else if !Live(t[id]) then Success(t)
    else if newEnd.Some? && newEnd.value <= t[id].startAt then Failure(InvalidEnd)
    else if !HasKey(t[id]) then Failure(MissingKey)
    else Success(SetEnd(t, id, newEnd, now))
  }

  /** What revoking the live row `id` at `at` makes of row `i`. */
  function RevokeRow(t: Table, id: Id, at: Instant, reason: Option<RevokeReason>, now: Instant, i: Id): Entitlement
    requires id in t && i in t
  {
    if i == id then t[i].(endAt := Some(at), revokedAt := Some(now), revokeReason := reason)
    else if !IsLater(t, id, i) then t[i]
    else Moved(t[i], ShiftOf(at - t[id].endAt.value))
  }

  function Revoke(t: Table, id: Id, at: Instant, reason: Option<RevokeReason>, now: Instant): Table
    requires id in t
  {
    map i | i in t :: RevokeRow(t, id, at, reason, now, i)
  }

  function RevokeNow(t: Table, id: Id, at: Instant, reason: Option<RevokeReason>, now: Instant): Result<Table, Error> {
    if id !in t then Failure(NotFound)
    else if !Live(t[id]) then Success(t)
    else if at <= t[id].startAt then Failure(InvalidRevoke)
    else if !HasKey(t[id]) then Failure(MissingKey)
    else Success(Revoke(t, id, at, reason, now))
  }

  // ----- the statements of the two edits -----

  lemma SameRows(t: Table, a: Table, b: Table)
    requires a.Keys == b.Keys == t.Keys
    ensures a == b <==> forall i :: i in t ==> a[i] == b[i]
  {
  }

  /** Writing the new end and then shifting what starts at or after the old one is the one-pass edit. */
  lemma SetEndByShift(t: Table, id: Id, e: Instant, now: Instant)
    requires id in t && Live(t[id]) && t[id].endAt.Some?
    ensures var oldEnd := t[id].endAt.value;
            ShiftTimeline(t[id := t[id].(endAt := Some(e))], t[id].userId, t[id].name, oldEnd, e - oldEnd, {id}) ==
            SetEnd(t, id, Some(e), now)
  {
  }

  /** Without a finite old end nothing is shifted or deleted. */
  lemma SetEndAlone(t: Table, id: Id, newEnd: Option<Instant>, now: Instant)
    requires id in t && (t[id].endAt.None? || newEnd == t[id].endAt)
    ensures t[id := t[id].(endAt := newEnd)] == SetEnd(t, id, newEnd, now)
  {
  }

  function DeleteFrom(t: Table, userId: string, name: string, from: Instant, keep: Id, now: Instant): Table {
    map i | i in t ::
      if On(t[i], userId, name) && Live(t[i]) && t[i].startAt >= from && i != keep then Deleted(t[i], now) else t[i]
  }

  /** An indefinite end deletes what starts at or after the old end. */
  lemma SetEndByDelete(t: Table, id: Id, now: Instant)
    requires id in t && Live(t[id]) && t[id].endAt.Some?
    ensures DeleteFrom(t[id := t[id].(endAt := None)], t[id].userId, t[id].name, t[id].endAt.value, id, now) ==
            SetEnd(t, id, None, now)
  {
  }

  lemma RevokeByShift(t: Table, id: Id, at: Instant, reason: Option<RevokeReason>, now: Instant)
    requires id in t && Live(t[id])
    ensures var revoked := t[id := t[id].(endAt := Some(at), revokedAt := Some(now), revokeReason := reason)];
            Revoke(t, id, at, reason, now) ==
            if t[id].endAt.None? then revoked
            else ShiftTimeline(revoked, t[id].userId, t[id].name, t[id].endAt.value, at - t[id].endAt.value, {id})
  {
  }

  // ----- disjointness -----

  /**
   The gap before every later window absorbs the part of an extension that the
   whole-second shift loses.
   */
  ghost predicate GapsAbsorb(t: Table, id: Id, newEnd: Instant)
    requires id in t && t[id].endAt.Some?
  {
    var oldEnd := t[id].endAt.value;
    newEnd > oldEnd ==>
      forall i :: i in t && IsLater(t, id, i) ==> t[i].startAt - oldEnd >= (newEnd - oldEnd) % SECOND
  }

  /** A live row of the timeline of `id` either ended by the start of `id` or is later than it. */
  lemma EarlierOrLater(t: Table, id: Id, i: Id)
    requires Disjoint(t)
    requires id in t && i in t && i != id && Live(t[id]) && Live(t[i]) && SameTimeline(t[id], t[i])
    ensures IsLater(t, id, i) || !EndsAfter(t[i], t[id].startAt)
  {
  }

  /** Row `i` neither overlaps the live row `id` nor is empty, where they share a timeline. */
  predicate Clear(t: Table, id: Id, i: Id)
    requires id in t && i in t
  {
    i != id && Live(t[i]) && SameTimeline(t[id], t[i]) ==>
      && EndsAfter(t[i], t[i].startAt)
      && (IsLater(t, id, i) || !EndsAfter(t[i], t[id].startAt))
  }

  lemma AllClear(t: Table, id: Id)
    requires Disjoint(t)
    requires id in t && Live(t[id])
    ensures forall i :: i in t ==> Clear(t, id, i)
    ensures EndsAfter(t[id], t[id].startAt)
  {
  }

  /**
   When one set-end step keeps the timeline disjoint: always for an indefinite old or
   new end and for a shortening; for an extension, exactly when the gaps absorb the
   lost fraction of a second.
   */
  lemma SetEndDisjoint(t: Table, id: Id, newEnd: Option<Instant>, now: Instant)
    requires Disjoint(t)
    requires id in t && Live(t[id])
    requires newEnd.Some? ==> newEnd.value > t[id].startAt
    ensures Disjoint(SetEnd(t, id, newEnd, now)) <==>
            (t[id].endAt.Some? && newEnd.Some? ==> GapsAbsorb(t, id, newEnd.value))
  {
    var t' := SetEnd(t, id, newEnd, now);
    if t[id].endAt.Some? && newEnd.Some? && !GapsAbsorb(t, id, newEnd.value) {
      var i :| i in t && IsLater(t, id, i) && t[i].startAt - t[id].endAt.value < (newEnd.value - t[id].endAt.value) % SECOND;
      assert Overlap(t'[id], t'[i]);
    } else {
      forall i, j | i in t' && j in t' && i != j && Live(t'[i]) && Live(t'[j]) && SameTimeline(t'[i], t'[j])
        ensures !Overlap(t'[i], t'[j])
      {
        assert !Overlap(t[i], t[j]);
        if SameTimeline(t[id], t[i]) {
          if i != id { EarlierOrLater(t, id, i); }
          if j != id { EarlierOrLater(t, id, j); }
        }
      }
    }
  }

  /**
   Arbitrary instants: whatever the fraction lost, no later window ends up starting a
   full second or more before the new end, and the other windows stay disjoint.
   */
  lemma SetEndIntrusion(t: Table, id: Id, newEnd: Instant, now: Instant)
    requires Disjoint(t)
    requires id in t && Live(t[id]) && t[id].endAt.Some? && newEnd > t[id].startAt
    ensures forall i :: i in t && IsLater(t, id, i) ==> SetEnd(t, id, Some(newEnd), now)[i].startAt > newEnd - SECOND
    ensures newEnd <= t[id].endAt.value ==>
              forall i :: i in t && IsLater(t, id, i) ==> SetEnd(t, id, Some(newEnd), now)[i].startAt >= newEnd
    ensures Disjoint(SetEnd(t, id, Some(newEnd), now) - {id})
  {
    var t' := SetEnd(t, id, Some(newEnd), now) - {id};
    forall i, j | i in t' && j in t' && i != j && Live(t'[i]) && Live(t'[j]) && SameTimeline(t'[i], t'[j])
      ensures !Overlap(t'[i], t'[j])
    {
      assert !Overlap(t[i], t[j]);
      if SameTimeline(t[id], t[i]) {
        EarlierOrLater(t, id, i);
        EarlierOrLater(t, id, j);
      }
    }
  }

  /**
   Revoking ends the row at `at` and keeps the timeline disjoint at any instant; every
   later window keeps its length, moves by one common distance, and does not start
   before `at` when the revocation is early or the distance is a whole number of seconds.
   */
  lemma RevokeDisjoint(t: Table, id: Id, at: Instant, reason: Option<RevokeReason>, now: Instant)
    requires Disjoint(t)
    requires id in t && Live(t[id]) && at > t[id].startAt
    ensures var t' := Revoke(t, id, at, reason, now);
            && Disjoint(t')
            && !Live(t'[id]) && t'[id].endAt == Some(at)
            && (forall i :: i in t && i != id && Live(t[i]) && SameTimeline(t[id], t[i]) ==>
                  Live(t'[i]) && (IsLater(t, id, i) || (t'[i] == t[i] && !EndsAfter(t'[i], t[id].startAt))))
            && (t[id].endAt.Some? ==>
                  var delta := at - t[id].endAt.value;
                  forall i :: i in t && IsLater(t, id, i) ==>
                    && t'[i] == Moved(t[i], ShiftOf(delta))
                    && (delta <= 0 || delta % SECOND == 0 ==> t'[i].startAt >= at))
  {
    var t' := Revoke(t, id, at, reason, now);
    forall i | i in t && i != id && Live(t[i]) && SameTimeline(t[id], t[i])
      ensures IsLater(t, id, i) || !EndsAfter(t[i], t[id].startAt)
    {
      EarlierOrLater(t, id, i);
    }
    forall i, j | i in t' && j in t' && i != j && Live(t'[i]) && Live(t'[j]) && SameTimeline(t'[i], t'[j])
      ensures !Overlap(t'[i], t'[j])
    {
      assert !Overlap(t[i], t[j]);
    }
  }

  // ----- algebra of set-end -----

  /** The distance a window `gap` after the old end e0 is moved by setting the end to e1 and then to e2. */
  function TwoStepShift(gap: int, e0: Instant, e1: Instant, e2: Instant): int {
    var first := ShiftOf(e1 - e0);
    if gap + first >= e1 - e0 then first + ShiftOf(e2 - e1) else first
  }

  function SetEndTwice(t: Table, id: Id, e1: Instant, e2: Instant, now: Instant): Table
    requires id in t
  {
    SetEnd(SetEnd(t, id, Some(e1), now), id, Some(e2), now)
  }

  /** The two truncated shifts of row `i`, if it is later than `id`, add up to the single one. */
  predicate ShiftsAdd(t: Table, id: Id, i: Id, e1: Instant, e2: Instant)
    requires id in t && i in t
  {
    IsLater(t, id, i) ==>
      var e0 := t[id].endAt.value;
      TwoStepShift(t[i].startAt - e0, e0, e1, e2) == ShiftOf(e2 - e0)
  }

  lemma WholeShiftsAdd(t: Table, id: Id, i: Id, e1: Instant, e2: Instant)
    requires id in t && i in t && t[id].endAt.Some?
    requires (e1 - t[id].endAt.value) % SECOND == 0 && (e2 - t[id].endAt.value) % SECOND == 0
    ensures ShiftsAdd(t, id, i, e1, e2)
  {
  }

  lemma TwoStepRow(t: Table, id: Id, i: Id, e1: Instant, e2: Instant, now: Instant)
    requires id in t && i in t && Clear(t, id, i) && Live(t[id]) && t[id].endAt.Some?
    requires e1 > t[id].startAt && e2 > t[id].startAt
    ensures SetEndTwice(t, id, e1, e2, now)[i] == SetEnd(t, id, Some(e2), now)[i] <==> ShiftsAdd(t, id, i, e1, e2)
  {
    var e0 := t[id].endAt.value;
    var t1 := SetEnd(t, id, Some(e1), now);
    assert t1[id] == t[id].(endAt := Some(e1));
    if IsLater(t, id, i) {
      assert t1[i] == Moved(t[i], ShiftOf(e1 - e0));
      assert SetEndTwice(t, id, e1, e2, now)[i] == Moved(t[i], TwoStepShift(t[i].startAt - e0, e0, e1, e2));
    } else {
      assert i != id ==> t1[i] == t[i] && !IsLater(t1, id, i);
    }
  }

  /**
   Setting a finite end to e1 and then to e2 gives the table of setting it to e2 alone
   exactly when, for every later window, the two truncated shifts add up to the single
   one; whole-second moves of the end always do.
   */
  lemma SetEndPathIndependent(t: Table, id: Id, e1: Instant, e2: Instant, now: Instant)
    requires Disjoint(t)
    requires id in t && Live(t[id]) && t[id].endAt.Some?
    requires e1 > t[id].startAt && e2 > t[id].startAt
    ensures SetEndTwice(t, id, e1, e2, now) == SetEnd(t, id, Some(e2), now) <==>
            forall i :: i in t ==> ShiftsAdd(t, id, i, e1, e2)
    ensures (e1 - t[id].endAt.value) % SECOND == 0 && (e2 - t[id].endAt.value) % SECOND == 0 ==>
              SetEndTwice(t, id, e1, e2, now) == SetEnd(t, id, Some(e2), now)
  {
    forall i | i in t
      ensures SetEndTwice(t, id, e1, e2, now)[i] == SetEnd(t, id, Some(e2), now)[i] <==> ShiftsAdd(t, id, i, e1, e2)
    {
      AllClear(t, id);
      TwoStepRow(t, id, i, e1, e2, now);
    }
    SameRows(t, SetEndTwice(t, id, e1, e2, now), SetEnd(t, id, Some(e2), now));
    if (e1 - t[id].endAt.value) % SECOND == 0 && (e2 - t[id].endAt.value) % SECOND == 0 {
      forall i | i in t
        ensures ShiftsAdd(t, id, i, e1, e2)
      {
        WholeShiftsAdd(t, id, i, e1, e2);
      }
    }
  }

  /**
   Moving an end to e1 and back shifts every later window by nothing exactly when the gaps
   absorb what the first step loses, or that step is backward or shorter than a second.
   */
  lemma UndoShifts(t: Table, id: Id, e1: Instant)
    requires id in t && t[id].endAt.Some?
    ensures (forall i :: i in t ==> ShiftsAdd(t, id, i, e1, t[id].endAt.value)) <==>
            GapsAbsorb(t, id, e1) || e1 - t[id].endAt.value < SECOND
  {
    var e0 := t[id].endAt.value;
    forall i | i in t
      ensures ShiftsAdd(t, id, i, e1, e0) <==>
              (IsLater(t, id, i) && e1 - e0 >= SECOND ==> t[i].startAt - e0 >= (e1 - e0) % SECOND)
    {
      UndoShift(t, id, i, e1);
    }
  }

  lemma UndoShift(t: Table, id: Id, i: Id, e1: Instant)
    requires id in t && t[id].endAt.Some? && i in t
    ensures var e0 := t[id].endAt.value;
            ShiftsAdd(t, id, i, e1, e0) <==>
            (IsLater(t, id, i) && e1 - e0 >= SECOND ==> t[i].startAt - e0 >= (e1 - e0) % SECOND)
  {
  }

  lemma SetEndSame(t: Table, id: Id, now: Instant)
    requires id in t && t[id].endAt.Some?
    ensures SetEnd(t, id, t[id].endAt, now) == t
  {
    SameRows(t, SetEnd(t, id, t[id].endAt, now), t);
  }

  /**
   Setting the old end back restores every row exactly when the gaps absorbed what the
   first step lost, or the first step moved the end backward or by less than a second.
   */
  lemma SetEndUndo(t: Table, id: Id, e1: Instant, now: Instant)
    requires Disjoint(t)
    requires id in t && Live(t[id]) && t[id].endAt.Some? && e1 > t[id].startAt
    ensures SetEndTwice(t, id, e1, t[id].endAt.value, now) == t <==>
            GapsAbsorb(t, id, e1) || e1 - t[id].endAt.value < SECOND
  {
    assert EndsAfter(t[id], t[id].startAt);
    SetEndPathIndependent(t, id, e1, t[id].endAt.value, now);
    SetEndSame(t, id, now);
    UndoShifts(t, id, e1);
  }

  /**
   Path independence does need whole seconds: two half-second extensions leave the next window
   behind, one extension by a second moves it, and the table of the two half steps
   is no longer disjoint.
   */
  lemma SetEndPathDependsOnFractions()
    ensures var w := Entitlement("u", "premium", 0, Some(10 * SECOND), Subscription, None, None, None, None);
            var next := w.(startAt := 10 * SECOND, endAt := Some(20 * SECOND));
            var t := map[0 := w, 1 := next];
            var half := SetEnd(t, 0, Some(10 * SECOND + SECOND / 2), 0);
            && Disjoint(t) && !Disjoint(half)
            && SetEnd(half, 0, Some(11 * SECOND), 0) != SetEnd(t, 0, Some(11 * SECOND), 0)
            && !Disjoint(SetEnd(half, 0, Some(11 * SECOND), 0))
  {
    var w := Entitlement("u", "premium", 0, Some(10 * SECOND), Subscription, None, None, None, None);
    var next := w.(startAt := 10 * SECOND, endAt := Some(20 * SECOND));
    var t := map[0 := w, 1 := next];
    var half := SetEnd(t, 0, Some(10 * SECOND + SECOND / 2), 0);
    assert half[1] == next && half[0].endAt == Some(10 * SECOND + SECOND / 2);
    assert Overlap(half[0], half[1]);
    var twice := SetEnd(half, 0, Some(11 * SECOND), 0);
    assert twice[1] == next && twice[0].endAt == Some(11 * SECOND);
    assert Overlap(twice[0], twice[1]);
    assert SetEnd(t, 0, Some(11 * SECOND), 0)[1].startAt == 11 * SECOND;
  }

  // ----- what the user sees -----

  /** One row's part in access before and after an edit. */
  lemma RowAccess(t: Table, id: Id, i: Id, e1: Instant, now: Instant, at: Instant)
    requires id in t && i in t && i != id && Clear(t, id, i) && Live(t[id]) && t[id].endAt.Some?
    requires EndsAfter(t[id], t[id].startAt) && e1 > t[id].startAt
    requires On(t[i], t[id].userId, t[id].name)
    ensures var e0 := t[id].endAt.value;
            var (d, e) := (ShiftOf(e1 - e0), SetEndRow(t, id, Some(e1), now, i));
            && (at >= e1 ==> (ActiveAt(e, at) <==> at - d >= e0 && ActiveAt(t[i], at - d)))
            && (at < e1 && at < e0 ==> (ActiveAt(e, at) <==> ActiveAt(t[i], at)))
  {
  }

  /** Access of the timeline of `id` once its end is set to `newEnd`. */
  ghost predicate AccessAfterSetEnd(t: Table, id: Id, newEnd: Option<Instant>, at: Instant)
    requires id in t
  {
    var (u, n) := (t[id].userId, t[id].name);
    match t[id].endAt
    case Some(e0) =>
      (match newEnd
       case Some(e1) =>
         var d := ShiftOf(e1 - e0);
         if at >= e1 then at - d >= e0 && IsEntitled(t, u, n, at - d) else at >= e0 || IsEntitled(t, u, n, at)
       case None => at >= t[id].startAt || IsEntitled(t, u, n, at))
    case None => BeforeEnd(newEnd, at) && IsEntitled(t, u, n, at)
  }

  predicate BeforeEnd(end: Option<Instant>, at: Instant) {
    end.Some? ==> at < end.value
  }

  /**
   Access after an edit. Between finite ends it is the old access with a stretch spliced in
   or cut out at the edited end: unchanged before, granted up to e1, and from e1 on what
   followed the old end, moved by the whole seconds of the change. An end made indefinite
   grants access for ever from the start of the window; one given to an indefinite window
   takes access away from there on.
   */
  lemma SetEndAccess(t: Table, id: Id, newEnd: Option<Instant>, now: Instant, at: Instant)
    requires Disjoint(t)
    requires id in t && Live(t[id]) && BeforeEnd(newEnd, t[id].startAt)
    ensures IsEntitled(SetEnd(t, id, newEnd, now), t[id].userId, t[id].name, at) <==> AccessAfterSetEnd(t, id, newEnd, at)
  {
    AllClear(t, id);
    if t[id].endAt.Some? && newEnd.Some? {
      SpliceAccess(t, id, newEnd.value, now, at);
    } else {
      OpenAccess(t, id, newEnd, now, at);
    }
  }

  /** The old or the new end is indefinite. */
  lemma OpenAccess(t: Table, id: Id, newEnd: Option<Instant>, now: Instant, at: Instant)
    requires id in t && Live(t[id]) && EndsAfter(t[id], t[id].startAt) && BeforeEnd(newEnd, t[id].startAt)
    requires forall i :: i in t ==> Clear(t, id, i)
    requires t[id].endAt.None? || newEnd.None?
    ensures IsEntitled(SetEnd(t, id, newEnd, now), t[id].userId, t[id].name, at) <==> AccessAfterSetEnd(t, id, newEnd, at)
  {
    var (u, n) := (t[id].userId, t[id].name);
    var t' := SetEnd(t, id, newEnd, now);
    assert t'.Keys == t.Keys;
    if newEnd.None? && at >= t[id].startAt {
      assert ActiveAt(t'[id], at);
    } else {
      forall i | i in t && On(t[i], u, n)
        ensures ActiveAt(t'[i], at) <==> BeforeEnd(newEnd, at) && ActiveAt(t[i], at)
      {
      }
    }
  }

  lemma SpliceAccess(t: Table, id: Id, e1: Instant, now: Instant, at: Instant)
    requires id in t && Live(t[id]) && t[id].endAt.Some? && EndsAfter(t[id], t[id].startAt)
    requires forall i :: i in t ==> Clear(t, id, i)
    requires e1 > t[id].startAt
    ensures var e0 := t[id].endAt.value;
            var (d, u, n) := (ShiftOf(e1 - e0), t[id].userId, t[id].name);
            IsEntitled(SetEnd(t, id, Some(e1), now), u, n, at) <==>
              if at >= e1 then at - d >= e0 && IsEntitled(t, u, n, at - d)
              else at >= e0 || IsEntitled(t, u, n, at)
  {
    var e0 := t[id].endAt.value;
    var (d, u, n) := (ShiftOf(e1 - e0), t[id].userId, t[id].name);
    var t' := SetEnd(t, id, Some(e1), now);
    if e0 <= at < e1 {
      assert ActiveAt(t'[id], at);
    } else {
      forall i | i in t
        ensures On(t'[i], u, n) && ActiveAt(t'[i], at) <==>
                On(t[i], u, n) && if at >= e1 then at - d >= e0 && ActiveAt(t[i], at - d) else ActiveAt(t[i], at)
      {
        if i != id && On(t[i], u, n) { RowAccess(t, id, i, e1, now, at); }
      }
      assert t'.Keys == t.Keys;
    }
  }

  /** Access of the timeline of `id` after its revocation at `r`: before its start as it was, later what followed its old end. */
  ghost predicate AccessAfterRevoke(t: Table, id: Id, r: Instant, at: Instant)
    requires id in t
  {
    var (u, n) := (t[id].userId, t[id].name);
    || (at < t[id].startAt && IsEntitled(t, u, n, at))
    || (t[id].endAt.Some? &&
        var (e0, d) := (t[id].endAt.value, ShiftOf(r - t[id].endAt.value));
        at - d >= e0 && IsEntitled(t, u, n, at - d))
  }

  /** One row's part in access before and after a revocation. */
  lemma RevokedRowAccess(t: Table, id: Id, i: Id, r: Instant, reason: Option<RevokeReason>, now: Instant, at: Instant)
    requires id in t && i in t && i != id && Clear(t, id, i) && Live(t[id])
    requires EndsAfter(t[id], t[id].startAt) && r > t[id].startAt
    requires On(t[i], t[id].userId, t[id].name)
    ensures ActiveAt(RevokeRow(t, id, r, reason, now, i), at) <==>
            || (at < t[id].startAt && ActiveAt(t[i], at))
            || (t[id].endAt.Some? &&
                var (e0, d) := (t[id].endAt.value, ShiftOf(r - t[id].endAt.value));
                at - d >= e0 && ActiveAt(t[i], at - d))
  {
  }

  /**
   Access after a revocation at r, of a finite or an indefinite window: the revoked window
   no longer counts at any time, access before its start is unchanged, and later there is
   what followed the old end, moved by the whole seconds of the change.
   */
  lemma RevokeAccess(t: Table, id: Id, r: Instant, reason: Option<RevokeReason>, now: Instant, at: Instant)
    requires Disjoint(t)
    requires id in t && Live(t[id]) && r > t[id].startAt
    ensures IsEntitled(Revoke(t, id, r, reason, now), t[id].userId, t[id].name, at) <==> AccessAfterRevoke(t, id, r, at)
  {
    AllClear(t, id);
    RevokedAccess(t, id, r, reason, now, at);
  }

  lemma RevokedAccess(t: Table, id: Id, r: Instant, reason: Option<RevokeReason>, now: Instant, at: Instant)
    requires id in t && Live(t[id]) && EndsAfter(t[id], t[id].startAt) && r > t[id].startAt
    requires forall i :: i in t ==> Clear(t, id, i)
    ensures IsEntitled(Revoke(t, id, r, reason, now), t[id].userId, t[id].name, at) <==> AccessAfterRevoke(t, id, r, at)
  {
    var (u, n) := (t[id].userId, t[id].name);
    var t' := Revoke(t, id, r, reason, now);
    forall i | i in t
      ensures On(t'[i], u, n) && ActiveAt(t'[i], at) <==>
              On(t[i], u, n) &&
              (|| (at < t[id].startAt && ActiveAt(t[i], at))
               || (t[id].endAt.Some? &&
                   var (e0, d) := (t[id].endAt.value, ShiftOf(r - t[id].endAt.value));
                   at - d >= e0 && ActiveAt(t[i], at - d)))
    {
      if i != id && On(t[i], u, n) { RevokedRowAccess(t, id, i, r, reason, now, at); }
    }
    assert t'.Keys == t.Keys;
  }

  // ----- summed length -----

  predicate Counts(e: Entitlement, userId: string, name: string) {
    Live(e) && On(e, userId, name) && e.endAt.Some?
  }

  function Length(e: Entitlement): int
    requires e.endAt.Some?
  {
    e.endAt.value - e.startAt
  }

  /** Summed length of the finite live windows of a timeline among the rows `ids`. */
  ghost function CoveredBy(t: Table, ids: set<Id>, userId: string, name: string): int
    requires ids <= t.Keys
  {
    if ids == {} then 0
    else
      var i :| i in ids;
      CoveredBy(t, ids - {i}, userId, name) + if Counts(t[i], userId, name) then Length(t[i]) else 0
  }

  ghost function Covered(t: Table, userId: string, name: string): int {
    CoveredBy(t, t.Keys, userId, name)
  }

  /** Tables that agree, row by row, on which windows count and on their lengths cover the same time. */
  lemma {:induction false} SameCover(t: Table, t': Table, ids: set<Id>, userId: string, name: string)
    requires ids <= t.Keys && ids <= t'.Keys
    requires forall i :: i in ids ==>
      && (Counts(t[i], userId, name) <==> Counts(t'[i], userId, name))
      && (Counts(t[i], userId, name) ==> Length(t[i]) == Length(t'[i]))
    ensures CoveredBy(t, ids, userId, name) == CoveredBy(t', ids, userId, name)
  {
    if ids != {} {
      var i :| i in ids && CoveredBy(t, ids, userId, name) ==
        CoveredBy(t, ids - {i}, userId, name) + if Counts(t[i], userId, name) then Length(t[i]) else 0;
      SameCover(t, t', ids - {i}, userId, name);
      CoverSplit(t', ids, i, userId, name);
    }
  }

  lemma {:induction false} CoverSplit(t: Table, ids: set<Id>, id: Id, userId: string, name: string)
    requires ids <= t.Keys && id in ids
    ensures CoveredBy(t, ids, userId, name) ==
            CoveredBy(t, ids - {id}, userId, name) + if Counts(t[id], userId, name) then Length(t[id]) else 0
  {
    var i :| i in ids && CoveredBy(t, ids, userId, name) ==
      CoveredBy(t, ids - {i}, userId, name) + if Counts(t[i], userId, name) then Length(t[i]) else 0;
    if i != id {
      CoverSplit(t, ids - {i}, id, userId, name);
      CoverSplit(t, ids - {id}, i, userId, name);
      assert ids - {i} - {id} == ids - {id} - {i};
    }
  }

  /**
   Moving a finite end from e0 to e1, at any instants: earlier windows stay, later ones
   move by one common distance (so their order, lengths and gaps stay), other timelines
   are untouched, and the summed length of the windows changes by exactly e1 - e0. (Where
   a fraction was lost and windows intrude, the sum counts the intrusion twice.)
   */
  lemma SetEndConserves(t: Table, id: Id, e1: Instant, now: Instant)
    requires Disjoint(t)
    requires id in t && Live(t[id]) && t[id].endAt.Some? && e1 > t[id].startAt
    ensures var (e0, u, n) := (t[id].endAt.value, t[id].userId, t[id].name);
            var t' := SetEnd(t, id, Some(e1), now);
            && t'.Keys == t.Keys
            && (forall i :: i in t && i != id && Live(t[i]) && SameTimeline(t[id], t[i]) ==>
                  t'[i] == if t[i].startAt < t[id].startAt then t[i] else Moved(t[i], ShiftOf(e1 - e0)))
            && (forall i :: i in t && !(Live(t[i]) && SameTimeline(t[id], t[i])) ==> t'[i] == t[i])
            && Covered(t', u, n) == Covered(t, u, n) + (e1 - e0)
  {
    AllClear(t, id);
    SetEndRows(t, id, e1, now);
    SetEndCover(t, id, e1, now);
  }

  lemma SetEndRows(t: Table, id: Id, e1: Instant, now: Instant)
    requires id in t && Live(t[id]) && t[id].endAt.Some? && EndsAfter(t[id], t[id].startAt)
    requires forall i :: i in t ==> Clear(t, id, i)
    ensures var t' := SetEnd(t, id, Some(e1), now);
            forall i :: i in t && i != id && Live(t[i]) && SameTimeline(t[id], t[i]) ==>
              t'[i] == if t[i].startAt < t[id].startAt then t[i] else Moved(t[i], ShiftOf(e1 - t[id].endAt.value))
  {
  }

  lemma SetEndCover(t: Table, id: Id, e1: Instant, now: Instant)
    requires id in t && Live(t[id]) && t[id].endAt.Some?
    ensures var (u, n) := (t[id].userId, t[id].name);
            Covered(SetEnd(t, id, Some(e1), now), u, n) == Covered(t, u, n) + (e1 - t[id].endAt.value)
  {
    var (u, n) := (t[id].userId, t[id].name);
    var t' := SetEnd(t, id, Some(e1), now);
    assert t'.Keys == t.Keys;
    CoverSplit(t, t.Keys, id, u, n);
    CoverSplit(t', t.Keys, id, u, n);
    SameCover(t, t', t.Keys - {id}, u, n);
  }
}
