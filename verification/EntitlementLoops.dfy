/**
 The two loops over many timelines: extending every window of a subscription, and
 ending every grace window of one. Each row edited is one set-end step; the loops take
 the rows in whatever order the database returned them.
 */
module EntitlementLoops {
  import opened Wrappers
  import opened Instants
  import opened EntitlementTable
  import opened EntitlementTimeline
  import opened EntitlementBulk

  /** `order` lists the rows of `ids`, each once. */
  ghost predicate IsOrdering(order: seq<Id>, ids: set<Id>) {
    && (forall i :: i in ids <==> i in order)
    && (forall j, k :: 0 <= j < k < |order| ==> order[j] != order[k])
  }

  ghost predicate DistinctTimelines(t: Table, ids: set<Id>)
    requires ids <= t.Keys
  {
    forall a, b :: a in ids && b in ids && a != b ==> !SameTimeline(t[a], t[b])
  }

  /** Live rows with finite ends, ready to be moved to `endAt`. */
  ghost predicate Movable(t: Table, ids: set<Id>, endAt: Instant) {
    && ids <= t.Keys
    && forall s :: s in ids ==> Live(t[s]) && t[s].endAt.Some? && endAt > t[s].startAt
  }

  /** Row `i` after every row of `ids` has its end set to `endAt` and each later window has followed its own timeline's change. */
  ghost function EndsMovedAt(t: Table, ids: set<Id>, endAt: Instant, i: Id): Entitlement
    requires Movable(t, ids, endAt) && i in t
  {
    if i in ids then t[i].(endAt := Some(endAt))
    else if exists s :: s in ids && IsLater(t, s, i) then
      var s :| s in ids && IsLater(t, s, i);
      Moved(t[i], ShiftOf(endAt - t[s].endAt.value))
    else t[i]
  }

  ghost function EndsMoved(t: Table, ids: set<Id>, endAt: Instant): Table
    requires Movable(t, ids, endAt)
  {
    map i | i in t :: EndsMovedAt(t, ids, endAt, i)
  }

  /** On the timeline of an edited row `s` the many-row edit is the one-row edit of `s`. */
  lemma OnEdited(t: Table, ids: set<Id>, endAt: Instant, now: Instant, s: Id, i: Id)
    requires Movable(t, ids, endAt) && DistinctTimelines(t, ids) && i in t
    requires s in ids && SameTimeline(t[s], t[i])
    ensures EndsMovedAt(t, ids, endAt, i) == SetEndRow(t, s, Some(endAt), now, i)
  {
  }

  /** Row `i` when one more row is edited. */
  lemma EndsMovedStepRow(t: Table, ids: set<Id>, id: Id, endAt: Instant, now: Instant, i: Id)
    requires Movable(t, ids + {id}, endAt) && Movable(t, ids, endAt) && DistinctTimelines(t, ids + {id}) && id !in ids && i in t
    requires id in t
    ensures SetEndRow(EndsMoved(t, ids, endAt), id, Some(endAt), now, i) == EndsMovedAt(t, ids + {id}, endAt, i)
    ensures EndsMovedAt(t, ids, endAt, id) == t[id]
  {
  }

  /** One more row edited. */
  lemma EndsMovedStep(t: Table, ids: set<Id>, id: Id, endAt: Instant, now: Instant)
    requires Movable(t, ids + {id}, endAt) && DistinctTimelines(t, ids + {id}) && id !in ids
    ensures EndsMoved(t, ids, endAt)[id] == t[id]
    ensures SetEnd(EndsMoved(t, ids, endAt), id, Some(endAt), now) == EndsMoved(t, ids + {id}, endAt)
  {
    EndsMovedStepRow(t, ids, id, endAt, now, id);
    forall i | i in t
      ensures SetEnd(EndsMoved(t, ids, endAt), id, Some(endAt), now)[i] == EndsMoved(t, ids + {id}, endAt)[i]
    {
      EndsMovedStepRow(t, ids, id, endAt, now, i);
    }
    SameRows(t, SetEnd(EndsMoved(t, ids, endAt), id, Some(endAt), now), EndsMoved(t, ids + {id}, endAt));
  }

  /** With every gap absorbing its lost fraction the many-row edit keeps the table disjoint ... */
  lemma {:induction false} EndsMovedKeeps(t: Table, ids: set<Id>, endAt: Instant)
    requires Disjoint(t)
    requires Movable(t, ids, endAt) && DistinctTimelines(t, ids)
    requires forall s :: s in ids ==> GapsAbsorb(t, s, endAt)
    ensures Disjoint(EndsMoved(t, ids, endAt))
  {
    if ids == {} {
      SameRows(t, EndsMoved(t, {}, endAt), t);
    } else {
      var id :| id in ids;
      var done := EndsMoved(t, ids - {id}, endAt);
      EndsMovedKeeps(t, ids - {id}, endAt);
      assert ids == ids - {id} + {id};
      EndsMovedStep(t, ids - {id}, id, endAt, 0);
      GapsUntouched(t, ids - {id}, id, endAt);
      SetEndDisjoint(done, id, Some(endAt), 0);
    }
  }

  /** Editing other timelines does not change the gaps of this one. */
  lemma GapsUntouched(t: Table, ids: set<Id>, id: Id, endAt: Instant)
    requires Movable(t, ids + {id}, endAt) && DistinctTimelines(t, ids + {id}) && id !in ids
    requires GapsAbsorb(t, id, endAt)
    ensures EndsMoved(t, ids, endAt)[id] == t[id] && GapsAbsorb(EndsMoved(t, ids, endAt), id, endAt)
  {
  }

  /** ... and with one gap too small it does not. */
  lemma EndsMovedOverlap(t: Table, ids: set<Id>, endAt: Instant, s: Id)
    requires Disjoint(t)
    requires Movable(t, ids, endAt) && DistinctTimelines(t, ids)
    requires s in ids && !GapsAbsorb(t, s, endAt)
    ensures !Disjoint(EndsMoved(t, ids, endAt))
  {
    var i :| i in t && IsLater(t, s, i) && t[i].startAt - t[s].endAt.value < (endAt - t[s].endAt.value) % SECOND;
    OnEdited(t, ids, endAt, 0, s, i);
    var t' := EndsMoved(t, ids, endAt);
    assert t'[s].endAt == Some(endAt) && t'[i] == Moved(t[i], ShiftOf(endAt - t[s].endAt.value));
    assert Overlap(t'[s], t'[i]);
  }

  // ----- extending a subscription -----

  predicate Extendable(e: Entitlement, sub: Id, endAt: Instant) {
    LiveFrom(e, Subscription, sub) && e.endAt.Some? && e.endAt.value < endAt
  }

  function ExtendSelection(t: Table, sub: Id, endAt: Instant): set<Id> {
    set i | i in t && Extendable(t[i], sub, endAt)
  }

  /**
   One round of the loop. `seen` is the row as it was read before the loop: the update
   applies only while the stored end is still the one read, the shift always runs.
   */
  function ExtendOne(t: Table, id: Id, seen: Entitlement, endAt: Instant): Result<Table, Error> {
    if seen.endAt.None? || endAt <= seen.endAt.value then Success(t)
    else if endAt <= seen.startAt then Failure(InvalidEnd)
    else if !HasKey(seen) then Failure(MissingKey)
    else
      var edited := if id in t && Live(t[id]) && t[id].endAt == seen.endAt
                    then t[id := t[id].(endAt := Some(endAt))] else t;
      Success(ShiftTimeline(edited, seen.userId, seen.name, seen.endAt.value, endAt - seen.endAt.value, {id}))
  }

  function ExtendRun(t: Table, seen: Table, order: seq<Id>, endAt: Instant): Result<Table, Error>
    requires forall i :: i in order ==> i in seen
  {
    if order == [] then Success(t)
    else
      match ExtendOne(t, order[0], seen[order[0]], endAt)
      case Failure(e) => Failure(e)
      case Success(next) => ExtendRun(next, seen, order[1..], endAt)
  }

  /** While the stored row is the one read, a round is a set-end step. */
  lemma ExtendOneSetsEnd(t: Table, id: Id, endAt: Instant, now: Instant)
    requires id in t && Live(t[id]) && t[id].endAt.Some? && endAt > t[id].endAt.value && endAt > t[id].startAt
    requires EndsAfter(t[id], t[id].startAt)
    ensures ExtendOne(t, id, t[id], endAt) == if HasKey(t[id]) then Success(SetEnd(t, id, Some(endAt), now)) else Failure(MissingKey)
  {
    SetEndByShift(t, id, endAt, now);
  }

  lemma ExtendRound(t: Table, done: set<Id>, id: Id, endAt: Instant)
    requires Movable(t, done + {id}, endAt) && DistinctTimelines(t, done + {id}) && id !in done
    requires t[id].endAt.value < endAt && EndsAfter(t[id], t[id].startAt)
    ensures ExtendOne(EndsMoved(t, done, endAt), id, t[id], endAt) ==
            if HasKey(t[id]) then Success(EndsMoved(t, done + {id}, endAt)) else Failure(MissingKey)
  {
    EndsMovedStep(t, done, id, endAt, 0);
    ExtendOneSetsEnd(EndsMoved(t, done, endAt), id, endAt, 0);
  }

  lemma OrderingRest(order: seq<Id>, ids: set<Id>)
    requires order != [] && IsOrdering(order, ids)
    ensures IsOrdering(order[1..], ids - {order[0]})
  {
  }

  lemma {:induction false} ExtendRunDistinct(t: Table, ids: set<Id>, done: set<Id>, order: seq<Id>, endAt: Instant)
    requires Movable(t, ids, endAt) && DistinctTimelines(t, ids)
    requires done <= ids && IsOrdering(order, ids - done)
    requires forall i :: i in ids ==> t[i].endAt.value < endAt && EndsAfter(t[i], t[i].startAt)
    ensures ExtendRun(EndsMoved(t, done, endAt), t, order, endAt) ==
            if forall i :: i in order ==> HasKey(t[i]) then Success(EndsMoved(t, ids, endAt)) else Failure(MissingKey)
    decreases order
  {
    if order == [] {
      forall i | i in ids
        ensures i in done
      {
        assert i in ids - done <==> i in order;
      }
      assert done == ids;
    } else {
      var id, rest := order[0], order[1..];
      assert id in order;
      ExtendRound(t, done, id, endAt);
      if HasKey(t[id]) {
        OrderingRest(order, ids - done);
        assert ids - (done + {id}) == ids - done - {id};
        ExtendRunDistinct(t, ids, done + {id}, rest, endAt);
        assert forall i :: i in order <==> i == id || i in rest;
      }
    }
  }

  /**
   With the selected windows on distinct timelines, extending succeeds exactly when every
   selected row has a key, in any processing order, and the table it leaves does not
   depend on that order: every selected window ends at `endAt`, later windows of the same
   timelines move, nothing else changes.
   */
  lemma ExtendAnyOrder(t: Table, sub: Id, endAt: Instant, order: seq<Id>)
    requires NonEmptyWindows(t)
    requires IsOrdering(order, ExtendSelection(t, sub, endAt))
    requires DistinctTimelines(t, ExtendSelection(t, sub, endAt))
    ensures var ids := ExtendSelection(t, sub, endAt);
            ExtendRun(t, t, order, endAt) ==
              if forall i :: i in ids ==> HasKey(t[i]) then Success(EndsMoved(t, ids, endAt)) else Failure(MissingKey)
  {
    var ids := ExtendSelection(t, sub, endAt);
    SameRows(t, EndsMoved(t, {}, endAt), t);
    assert ids - {} == ids;
    ExtendRunDistinct(t, ids, {}, order, endAt);
  }

  /**
   What extending distinct timelines does to each row: the selected windows end exactly
   at `endAt`, no live window gets shorter, later windows of an extended timeline move by
   that timeline's own change, every other row is untouched.
   */
  lemma ExtendEffect(t: Table, sub: Id, endAt: Instant, i: Id)
    requires NonEmptyWindows(t) && i in t
    requires DistinctTimelines(t, ExtendSelection(t, sub, endAt))
    ensures var ids := ExtendSelection(t, sub, endAt);
            var e := EndsMoved(t, ids, endAt)[i];
            && (i in ids ==> e == t[i].(endAt := Some(endAt)))
            && (forall s :: s in ids && IsLater(t, s, i) ==> e == Moved(t[i], ShiftOf(endAt - t[s].endAt.value)))
            && (i !in ids && (forall s :: s in ids ==> !IsLater(t, s, i)) ==> e == t[i])
            && (t[i].endAt.Some? ==> e.endAt.Some? && Length(e) >= Length(t[i]))
            && e.startAt >= t[i].startAt
  {
  }

  /** Extending distinct timelines keeps the table disjoint exactly when the gaps absorb the fractions lost. */
  lemma ExtendDisjoint(t: Table, sub: Id, endAt: Instant)
    requires Disjoint(t)
    requires DistinctTimelines(t, ExtendSelection(t, sub, endAt))
    ensures var ids := ExtendSelection(t, sub, endAt);
            Disjoint(EndsMoved(t, ids, endAt)) <==> forall s :: s in ids ==> GapsAbsorb(t, s, endAt)
  {
    var ids := ExtendSelection(t, sub, endAt);
    if s :| s in ids && !GapsAbsorb(t, s, endAt) {
      EndsMovedOverlap(t, ids, endAt, s);
    } else {
      EndsMovedKeeps(t, ids, endAt);
    }
  }

  /** Rows as the extension selects them from a disjoint table, none of which lacks a key. */
  ghost predicate Selected(t: Table, ids: set<Id>, endAt: Instant) {
    forall s :: s in ids ==>
      && s in t && Live(t[s]) && HasKey(t[s])
      && t[s].endAt.Some? && t[s].startAt < t[s].endAt.value < endAt
  }

  lemma SelectionSelected(t: Table, sub: Id, endAt: Instant)
    requires NonEmptyWindows(t)
    ensures Selected(t, ExtendSelection(t, sub, endAt), endAt) <==>
            forall s :: s in ExtendSelection(t, sub, endAt) ==> HasKey(t[s])
  {
  }

  /** The ends of the selected rows move by whole seconds. */
  ghost predicate WholeChanges(t: Table, ids: set<Id>, endAt: Instant) {
    forall s :: s in ids ==> s in t && t[s].endAt.Some? && (endAt - t[s].endAt.value) % SECOND == 0
  }

  /** A run over such rows succeeds exactly when none of them lacks a key. */
  lemma {:induction false} RunSucceeds(cur: Table, seen: Table, order: seq<Id>, endAt: Instant)
    requires forall i :: i in order ==> i in seen && seen[i].endAt.Some? && seen[i].startAt < seen[i].endAt.value < endAt
    ensures ExtendRun(cur, seen, order, endAt).Success? <==> forall i :: i in order ==> HasKey(seen[i])
    decreases order
  {
    if order != [] {
      assert order == [order[0]] + order[1..] && order[0] in order;
      if HasKey(seen[order[0]]) {
        RunSucceeds(ExtendOne(cur, order[0], seen[order[0]], endAt).value, seen, order[1..], endAt);
      }
    }
  }

  // Two selected windows on one timeline: the later one is always pushed past `endAt`.

  /** Row `b` during a run: still as it was, or its end at or past `endAt`; its start never earlier. */
  ghost predicate Pushed(t: Table, cur: Table, b: Id, endAt: Instant, past: bool)
    requires b in t && t[b].endAt.Some?
  {
    && b in cur && Live(cur[b]) && SameTimeline(t[b], cur[b]) && cur[b].startAt >= t[b].startAt && cur[b].endAt.Some?
    && (cur[b].endAt.value >= endAt || (cur[b].endAt == t[b].endAt && cur[b].startAt == t[b].startAt))
    && (past ==> cur[b].endAt.value > endAt)
  }

  /** One round moves `b` past `endAt` when it is the round of a window before it, and otherwise never back. */
  lemma PushedStep(t: Table, cur: Table, s: Id, b: Id, endAt: Instant, past: bool)
    requires b in t && s in t && Live(t[s]) && HasKey(t[s])
    requires t[b].endAt.Some? && t[b].startAt < t[b].endAt.value < endAt
    requires t[s].endAt.Some? && t[s].startAt < t[s].endAt.value < endAt
    requires (endAt - t[s].endAt.value) % SECOND == 0
    requires Pushed(t, cur, b, endAt, past)
    ensures var r := ExtendOne(cur, s, t[s], endAt);
            r.Success? && Pushed(t, r.value, b, endAt, past || IsLater(t, s, b))
  {
  }

  lemma {:induction false} PushedRun(
    t: Table, cur: Table, ids: set<Id>, order: seq<Id>, a: Id, b: Id, endAt: Instant, past: bool)
    requires Selected(t, ids, endAt) && WholeChanges(t, ids, endAt) && a in ids && b in ids
    requires forall s :: s in order ==> s in ids
    requires Pushed(t, cur, b, endAt, past) && (past || (a in order && IsLater(t, a, b)))
    ensures var r := ExtendRun(cur, t, order, endAt); r.Success? && Pushed(t, r.value, b, endAt, true)
    decreases order
  {
    if order != [] {
      var s := order[0];
      assert order == [s] + order[1..] && s in order;
      PushedStep(t, cur, s, b, endAt, past);
      PushedRun(t, ExtendOne(cur, s, t[s], endAt).value, ids, order[1..], a, b, endAt, past || IsLater(t, s, b));
    }
  }

  /** The run succeeds and leaves every selected window ending exactly at `endAt`. */
  ghost predicate ReachesEnd(t: Table, ids: set<Id>, order: seq<Id>, endAt: Instant)
    requires forall i :: i in order ==> i in t
  {
    var r := ExtendRun(t, t, order, endAt);
    r.Success? && forall s :: s in ids ==> s in r.value && r.value[s].endAt == Some(endAt)
  }

  lemma SharedTimelineMisses(t: Table, ids: set<Id>, order: seq<Id>, endAt: Instant)
    requires Disjoint(t) && Selected(t, ids, endAt) && WholeChanges(t, ids, endAt) && IsOrdering(order, ids)
    requires ids <= t.Keys && !DistinctTimelines(t, ids)
    ensures !ReachesEnd(t, ids, order, endAt)
  {
    var a, b :| a in ids && b in ids && a != b && SameTimeline(t[a], t[b]);
    EarlierOrLater(t, a, b);
    EarlierOrLater(t, b, a);
    if IsLater(t, a, b) {
      PushedRun(t, t, ids, order, a, b, endAt, false);
    } else {
      PushedRun(t, t, ids, order, b, a, endAt, false);
    }
  }

  /**
   Whole-second changes of the selected ends, any one processing order: it leaves every
   selected window ending exactly at `endAt` if and only if every key is present and no
   two selected windows share a timeline.
   */
  lemma ExtendReachesEndInOrder(t: Table, sub: Id, endAt: Instant, order: seq<Id>)
    requires Disjoint(t) && WholeChanges(t, ExtendSelection(t, sub, endAt), endAt)
    requires IsOrdering(order, ExtendSelection(t, sub, endAt))
    ensures var ids := ExtendSelection(t, sub, endAt);
            ReachesEnd(t, ids, order, endAt) <==> Selected(t, ids, endAt) && DistinctTimelines(t, ids)
  {
    var ids := ExtendSelection(t, sub, endAt);
    SelectionSelected(t, sub, endAt);
    if DistinctTimelines(t, ids) {
      ExtendAnyOrder(t, sub, endAt, order);
    } else if ExtendRun(t, t, order, endAt).Success? {
      RunSucceeds(t, t, order, endAt);
      SharedTimelineMisses(t, ids, order, endAt);
    }
  }

  // Overlapping rows that are moved alike by every round to come.

  ghost predicate Clash(cur: Table, w: Id, v: Id) {
    && w in cur && v in cur && w != v && Live(cur[w]) && Live(cur[v]) && SameTimeline(cur[w], cur[v])
    && Overlap(cur[w], cur[v])
  }

  /** The round of a row read as `seen` reaches both rows, or neither. */
  ghost predicate MovesAlike(cur: Table, seen: Entitlement, w: Id, v: Id, endAt: Instant)
    requires w in cur && v in cur
  {
    && seen.endAt.Some? && seen.endAt.value < endAt
    && (SameTimeline(seen, cur[w]) && ShiftOf(endAt - seen.endAt.value) > 0 ==>
          cur[w].startAt >= seen.endAt.value && cur[v].startAt >= seen.endAt.value)
  }

  lemma {:induction false} ClashStays(cur: Table, seen: Table, order: seq<Id>, w: Id, v: Id, endAt: Instant)
    requires Clash(cur, w, v)
    requires forall r :: r in order ==> r in seen && r != w && r != v && MovesAlike(cur, seen[r], w, v, endAt)
    ensures var r := ExtendRun(cur, seen, order, endAt); r.Success? ==> !Disjoint(r.value)
    decreases order
  {
    if order != [] && ExtendOne(cur, order[0], seen[order[0]], endAt).Success? {
      assert order[0] in order;
      ClashRound(cur, order[0], seen[order[0]], w, v, endAt);
      ClashStays(ExtendOne(cur, order[0], seen[order[0]], endAt).value, seen, order[1..], w, v, endAt);
    }
  }

  lemma ClashRound(cur: Table, id: Id, seen: Entitlement, w: Id, v: Id, endAt: Instant)
    requires Clash(cur, w, v) && id != w && id != v && MovesAlike(cur, seen, w, v, endAt)
    requires ExtendOne(cur, id, seen, endAt).Success?
    ensures var next := ExtendOne(cur, id, seen, endAt).value;
            && Clash(next, w, v) && SameTimeline(cur[w], next[w])
            && next[w].startAt >= cur[w].startAt && next[v].startAt >= cur[v].startAt
  {
  }

  /** Among rows of one timeline, later windows come first. */
  ghost predicate LatestFirst(t: Table, order: seq<Id>) {
    && (forall i :: i in order ==> i in t)
    && forall j, k :: 0 <= j < k < |order| && SameTimeline(t[order[j]], t[order[k]]) ==>
        t[order[j]].startAt > t[order[k]].startAt
  }

  lemma WholeSecondsGaps(t: Table, id: Id, endAt: Instant)
    requires WholeSecondWindows(t) && OnSecond(endAt) && id in t && Live(t[id]) && t[id].endAt.Some?
    ensures GapsAbsorb(t, id, endAt)
  {
  }

  lemma SetEndWholeSeconds(t: Table, id: Id, newEnd: Option<Instant>, now: Instant)
    requires WholeSecondWindows(t) && id in t && (newEnd.Some? ==> OnSecond(newEnd.value))
    ensures WholeSecondWindows(SetEnd(t, id, newEnd, now))
  {
    var t' := SetEnd(t, id, newEnd, now);
    forall i | i in t' && Live(t'[i])
      ensures OnSecond(t'[i].startAt) && (t'[i].endAt.Some? ==> OnSecond(t'[i].endAt.value))
    {
      assert Live(t[i]);
      if i != id && IsLater(t, id, i) && newEnd.Some? {
        var delta := newEnd.value - t[id].endAt.value;
        OnSecondPlus(t[i].startAt, delta);
        if t[i].endAt.Some? { OnSecondPlus(t[i].endAt.value, delta); }
      }
    }
  }

  /**
   Editing row `id` leaves a selected row before it, or of another timeline, as it was,
   and the gaps behind that row big enough or too small as they were.
   */
  lemma GapsBefore(t: Table, id: Id, s: Id, endAt: Instant)
    requires Disjoint(t)
    requires id in t && Live(t[id]) && t[id].endAt.Some? && t[id].endAt.value < endAt
    requires s in t && Live(t[s]) && t[s].endAt.Some? && s != id
    requires SameTimeline(t[id], t[s]) ==> t[s].startAt < t[id].startAt
    ensures var next := SetEnd(t, id, Some(endAt), 0);
            next[s] == t[s] && (GapsAbsorb(next, s, endAt) <==> GapsAbsorb(t, s, endAt))
  {
    var next := SetEnd(t, id, Some(endAt), 0);
    assert EndsAfter(t[id], t[id].startAt);
    if SameTimeline(t[id], t[s]) {
      EarlierOrLater(t, id, s);
      assert IsLater(t, s, id) && IsLater(next, s, id) && next[id].startAt == t[id].startAt;
    }
    forall i | i in t
      ensures IsLater(next, s, i) ==> IsLater(t, s, i) && next[i].startAt >= t[i].startAt
      ensures IsLater(t, s, i) && next[i] != t[i] ==> i == id || t[i].startAt >= t[id].startAt
    {
    }
  }

  /** The rows to come, latest first, are as they were read and still to be extended. */
  ghost predicate ToExtend(t: Table, seen: Table, order: seq<Id>, endAt: Instant) {
    && LatestFirst(t, order)
    && forall i :: i in order ==>
         i in seen && t[i] == seen[i] && Live(t[i]) && t[i].endAt.Some? && t[i].endAt.value < endAt
  }

  ghost predicate AllAbsorb(t: Table, ids: seq<Id>, endAt: Instant)
    requires forall i :: i in ids ==> i in t && t[i].endAt.Some?
  {
    forall i :: i in ids ==> GapsAbsorb(t, i, endAt)
  }

  /** The round of `id` leaves row `i`, still to come, and the size of its gaps as they were. */
  ghost predicate LeftToCome(t: Table, id: Id, i: Id, endAt: Instant)
    requires id in t && i in t && t[i].endAt.Some?
  {
    var next := SetEnd(t, id, Some(endAt), 0);
    && i != id && next[i] == t[i]
    && (SameTimeline(t[id], t[i]) ==> t[i].startAt < t[id].startAt)
    && (GapsAbsorb(next, i, endAt) <==> GapsAbsorb(t, i, endAt))
  }

  lemma LatestFirstRow(t: Table, order: seq<Id>, k: nat, endAt: Instant)
    requires Disjoint(t) && ToExtend(t, t, order, endAt) && k + 1 < |order|
    ensures order[1..][k] in order && LeftToCome(t, order[0], order[1..][k], endAt)
  {
    assert order[1..][k] == order[k + 1] && order[0] in order;
    GapsBefore(t, order[0], order[k + 1], endAt);
  }

  lemma LatestFirstRows(t: Table, order: seq<Id>, endAt: Instant)
    requires Disjoint(t) && order != [] && ToExtend(t, t, order, endAt)
    ensures forall i :: i in order[1..] ==> i in order && LeftToCome(t, order[0], i, endAt)
  {
    forall k | 0 <= k < |order| - 1
      ensures order[1..][k] in order && LeftToCome(t, order[0], order[1..][k], endAt)
    {
      LatestFirstRow(t, order, k, endAt);
    }
  }

  lemma LatestFirstSorted(t: Table, order: seq<Id>, endAt: Instant)
    requires order != [] && ToExtend(t, t, order, endAt)
    requires forall i :: i in order[1..] ==> i in order && LeftToCome(t, order[0], i, endAt)
    ensures ToExtend(SetEnd(t, order[0], Some(endAt), 0), t, order[1..], endAt)
  {
    var next, rest := SetEnd(t, order[0], Some(endAt), 0), order[1..];
    forall j, k | 0 <= j < k < |rest|
      ensures next[rest[j]] == t[order[j + 1]] && next[rest[k]] == t[order[k + 1]]
    {
      assert rest[j] in rest && rest[k] in rest;
    }
  }

  /** What the first round of such an order leaves for the others. */
  lemma LatestFirstRest(t: Table, order: seq<Id>, endAt: Instant)
    requires Disjoint(t) && order != [] && ToExtend(t, t, order, endAt)
    ensures var (id, next, rest) := (order[0], SetEnd(t, order[0], Some(endAt), 0), order[1..]);
            && ToExtend(next, t, rest, endAt)
            && (forall i :: i in rest ==> i in order && LeftToCome(t, id, i, endAt))
            && (AllAbsorb(t, order, endAt) <==> GapsAbsorb(t, id, endAt) && AllAbsorb(next, rest, endAt))
  {
    LatestFirstRows(t, order, endAt);
    LatestFirstSorted(t, order, endAt);
    assert order == [order[0]] + order[1..];
    assert forall i :: i in order <==> i == order[0] || i in order[1..];
  }

  /** The round of `id` pushes `id` into a row `v` too near behind it, and the rounds of the rows before them move both. */
  lemma PushedInto(t: Table, id: Id, v: Id, endAt: Instant)
    requires Disjoint(t)
    requires id in t && Live(t[id]) && t[id].endAt.Some? && t[id].endAt.value < endAt
    requires v in t && IsLater(t, id, v) && t[v].startAt - t[id].endAt.value < (endAt - t[id].endAt.value) % SECOND
    ensures var next := SetEnd(t, id, Some(endAt), 0);
            && Clash(next, id, v) && next[id].startAt == t[id].startAt && next[v].startAt >= t[v].startAt > t[id].startAt
            && SameTimeline(t[id], next[id])
  {
    AllClear(t, id);
    assert Clear(t, id, v);
  }

  lemma BeforeBoth(t: Table, next: Table, id: Id, v: Id, r: Id, endAt: Instant)
    requires Disjoint(t) && id in t && Live(t[id]) && t[id].endAt.Some? && v in t && IsLater(t, id, v)
    requires r in t && r != id && Live(t[r]) && t[r].endAt.Some? && t[r].endAt.value < endAt
    requires SameTimeline(t[id], t[r]) ==> t[r].startAt < t[id].startAt
    requires Clash(next, id, v) && SameTimeline(t[id], next[id])
    requires next[id].startAt == t[id].startAt && next[v].startAt >= t[v].startAt > t[id].startAt
    ensures r != v && MovesAlike(next, t[r], id, v, endAt)
  {
    if SameTimeline(t[id], t[r]) { EarlierOrLater(t, id, r); }
  }

  /** A window pushed into the one behind it stays there when the windows before it are extended. */
  lemma LatestFirstClash(t: Table, seen: Table, order: seq<Id>, endAt: Instant)
    requires Disjoint(t) && order != [] && ToExtend(t, seen, order, endAt) && ToExtend(t, t, order, endAt)
    requires !GapsAbsorb(t, order[0], endAt)
    ensures var (next, rest) := (SetEnd(t, order[0], Some(endAt), 0), order[1..]);
            ToExtend(next, seen, rest, endAt) &&
            (ExtendRun(next, seen, rest, endAt).Success? ==> !Disjoint(ExtendRun(next, seen, rest, endAt).value))
  {
    var (id, next) := (order[0], SetEnd(t, order[0], Some(endAt), 0));
    assert id in order;
    LatestFirstRest(t, order, endAt);
    var v :| v in t && IsLater(t, id, v) && t[v].startAt - t[id].endAt.value < (endAt - t[id].endAt.value) % SECOND;
    PushedInto(t, id, v, endAt);
    forall r | r in order[1..]
      ensures r != v && MovesAlike(next, seen[r], id, v, endAt)
    {
      BeforeBoth(t, next, id, v, r, endAt);
    }
    ClashStays(next, seen, order[1..], id, v, endAt);
  }

  lemma LatestFirstRound(t: Table, seen: Table, order: seq<Id>, endAt: Instant)
    requires Disjoint(t) && order != [] && ToExtend(t, seen, order, endAt)
    ensures ExtendOne(t, order[0], seen[order[0]], endAt) ==
            if HasKey(seen[order[0]]) then Success(SetEnd(t, order[0], Some(endAt), 0)) else Failure(MissingKey)
    ensures GapsAbsorb(t, order[0], endAt) <==> Disjoint(SetEnd(t, order[0], Some(endAt), 0))
  {
    assert order[0] in order;
    assert EndsAfter(t[order[0]], t[order[0]].startAt);
    ExtendOneSetsEnd(t, order[0], endAt, 0);
    SetEndDisjoint(t, order[0], Some(endAt), 0);
  }

  /**
   Selected windows may share a timeline when the later one happens to be processed first:
   then extending keeps the table disjoint, at any instants, exactly when the gaps absorb
   the fractions lost. (At first `seen` is `t`; while the loop runs `t` changes.)
   */
  lemma {:induction false} ExtendLatestFirst(t: Table, seen: Table, order: seq<Id>, endAt: Instant)
    requires Disjoint(t) && ToExtend(t, seen, order, endAt)
    ensures var r := ExtendRun(t, seen, order, endAt);
            r.Success? ==> (Disjoint(r.value) <==> AllAbsorb(t, order, endAt))
    decreases order
  {
    if order != [] {
      var id, rest := order[0], order[1..];
      assert order == [id] + rest && id in order;
      LatestFirstRound(t, seen, order, endAt);
      if !HasKey(seen[id]) { return; }
      LatestFirstRest(t, order, endAt);
      if GapsAbsorb(t, id, endAt) {
        ExtendLatestFirst(SetEnd(t, id, Some(endAt), 0), seen, rest, endAt);
        assert forall i :: i in order <==> i == id || i in rest;
      } else {
        LatestFirstClash(t, seen, order, endAt);
      }
    }
  }

  const EARLIER := Entitlement("u", "premium", 0, Some(30 * SECOND), Subscription, Some(7), None, None, None)
  const BETWEEN := EARLIER.(startAt := 30 * SECOND, endAt := Some(40 * SECOND), sourceType := Admin)
  const LATER := EARLIER.(startAt := 40 * SECOND, endAt := Some(75 * SECOND))
  const CLASH: Table := map[0 := EARLIER, 1 := BETWEEN, 2 := LATER]

  const CLASH_AFTER_ONE: Table :=
    map[0 := EARLIER.(endAt := Some(90 * SECOND)), 1 := Moved(BETWEEN, 60 * SECOND), 2 := Moved(LATER, 60 * SECOND)]

  lemma ClashFirstRound()
    ensures ExtendOne(CLASH, 0, EARLIER, 90 * SECOND) == Success(CLASH_AFTER_ONE)
  {
    assert ShiftOf(60 * SECOND) == 60 * SECOND;
    SameRows(CLASH, ExtendOne(CLASH, 0, EARLIER, 90 * SECOND).value, CLASH_AFTER_ONE);
  }

  lemma ClashSecondRound()
    ensures ExtendOne(CLASH_AFTER_ONE, 2, LATER, 90 * SECOND) ==
            Success(CLASH_AFTER_ONE[1 := Moved(BETWEEN, 75 * SECOND)])
  {
    SameRows(CLASH_AFTER_ONE, ExtendOne(CLASH_AFTER_ONE, 2, LATER, 90 * SECOND).value,
             CLASH_AFTER_ONE[1 := Moved(BETWEEN, 75 * SECOND)]);
  }

  lemma RunOfTwo(t: Table, seen: Table, i: Id, j: Id, endAt: Instant)
    requires i in seen && j in seen
    requires ExtendOne(t, i, seen[i], endAt).Success?
    ensures ExtendRun(t, seen, [i, j], endAt) == ExtendOne(ExtendOne(t, i, seen[i], endAt).value, j, seen[j], endAt)
  {
    assert [i, j][1..] == [j] && [j][1..] == [];
    var next := ExtendOne(t, i, seen[i], endAt).value;
    assert ExtendRun(next, seen, [j], endAt) == ExtendOne(next, j, seen[j], endAt);
  }

  lemma ClashBefore()
    ensures Disjoint(CLASH) && IsOrdering([0, 2], ExtendSelection(CLASH, 7, 90 * SECOND))
  {
  }

  /**
   In the other order it may not: with a window of another source between two selected
   ones, the second round shifts that window again and pushes it into the second.
   */
  lemma ExtendEarliestFirstOverlaps()
    ensures Disjoint(CLASH) && IsOrdering([0, 2], ExtendSelection(CLASH, 7, 90 * SECOND))
    ensures var r := ExtendRun(CLASH, CLASH, [0, 2], 90 * SECOND);
            r.Success? && !Disjoint(r.value)
  {
    ClashBefore();
    ClashFirstRound();
    ClashSecondRound();
    RunOfTwo(CLASH, CLASH, 0, 2, 90 * SECOND);
    var t := ExtendRun(CLASH, CLASH, [0, 2], 90 * SECOND).value;
    assert Overlap(t[1], t[2]);
  }

  // ----- ending grace -----

  predicate InGrace(e: Entitlement, sub: Id, now: Instant) {
    LiveFrom(e, Grace, sub) && e.startAt < now && e.endAt.Some? && e.endAt.value > now
  }

  function GraceSelection(t: Table, sub: Id, now: Instant): set<Id> {
    set i | i in t && InGrace(t[i], sub, now)
  }

  function DeleteFutureGrace(t: Table, sub: Id, now: Instant): Table {
    map i | i in t :: if LiveFrom(t[i], Grace, sub) && t[i].startAt >= now then Deleted(t[i], now) else t[i]
  }

  function GraceRun(t: Table, order: seq<Id>, now: Instant): Result<Table, Error> {
    if order == [] then Success(t)
    else
      match SetEndAt(t, order[0], Some(now), now)
      case Failure(e) => Failure(e)
      case Success(next) => GraceRun(next, order[1..], now)
  }

  function EndGraceNow(t: Table, sub: Id, now: Instant, order: seq<Id>): Result<Table, Error> {
    match GraceRun(t, order, now)
    case Failure(e) => Failure(e)
    case Success(next) => Success(DeleteFutureGrace(next, sub, now))
  }

  lemma {:induction false} GraceRunDistinct(t: Table, ids: set<Id>, done: set<Id>, order: seq<Id>, now: Instant)
    requires Movable(t, ids, now) && DistinctTimelines(t, ids)
    requires done <= ids && IsOrdering(order, ids - done)
    ensures GraceRun(EndsMoved(t, done, now), order, now) ==
            if forall i :: i in order ==> HasKey(t[i]) then Success(EndsMoved(t, ids, now)) else Failure(MissingKey)
    decreases order
  {
    if order == [] {
      forall i | i in ids
        ensures i in done
      {
        assert i in ids - done <==> i in order;
      }
      assert done == ids;
    } else {
      var id, rest := order[0], order[1..];
      assert id in order;
      EndsMovedStep(t, done, id, now, now);
      if HasKey(t[id]) {
        OrderingRest(order, ids - done);
        assert ids - (done + {id}) == ids - done - {id};
        GraceRunDistinct(t, ids, done + {id}, rest, now);
        assert forall i :: i in order <==> i == id || i in rest;
      }
    }
  }

  /** Two live windows that both contain `now` cannot share a timeline of a disjoint table. */
  lemma GraceSelectionDistinct(t: Table, sub: Id, now: Instant)
    requires Disjoint(t)
    ensures Movable(t, GraceSelection(t, sub, now), now)
    ensures DistinctTimelines(t, GraceSelection(t, sub, now))
  {
  }

  /** Ending grace on a disjoint table succeeds exactly when every window it ends has a key, and does not depend on the order of the rows. */
  lemma EndGraceAnyOrder(t: Table, sub: Id, now: Instant, order: seq<Id>)
    requires Disjoint(t)
    requires IsOrdering(order, GraceSelection(t, sub, now))
    ensures var ids := GraceSelection(t, sub, now);
            Movable(t, ids, now) &&
            EndGraceNow(t, sub, now, order) ==
              if forall i :: i in ids ==> HasKey(t[i]) then Success(DeleteFutureGrace(EndsMoved(t, ids, now), sub, now))
              else Failure(MissingKey)
  {
    var ids := GraceSelection(t, sub, now);
    GraceSelectionDistinct(t, sub, now);
    SameRows(t, EndsMoved(t, {}, now), t);
    assert ids - {} == ids;
    GraceRunDistinct(t, ids, {}, order, now);
  }

  /** `e` is the window `was`, same length and otherwise unchanged, moved earlier but not to before `now`. */
  predicate MovedBack(was: Entitlement, e: Entitlement, now: Instant) {
    now <= e.startAt <= was.startAt && e == Moved(was, e.startAt - was.startAt)
  }

  /** One row after ending grace. */
  lemma EndGraceRow(t: Table, sub: Id, now: Instant, i: Id)
    requires i in t
    requires Movable(t, GraceSelection(t, sub, now), now) && DistinctTimelines(t, GraceSelection(t, sub, now))
    ensures var e := DeleteFutureGrace(EndsMoved(t, GraceSelection(t, sub, now), now), sub, now)[i];
            && (LiveFrom(t[i], Grace, sub) && Live(e) ==>
                  if e.endAt.Some? then e.endAt.value <= now else e == t[i] && t[i].startAt < now)
            && (Live(t[i]) && !From(t[i], Grace, sub) ==> e == t[i] || MovedBack(t[i], e, now))
            && (!Live(t[i]) ==> e == t[i])
  {
  }

  /**
   Ending grace leaves no live grace window of the subscription that ends after now
   (except an indefinite one already running, which it does not select); every other
   live window survives, either untouched or moved earlier by less than it would take to
   start before now, its length kept; and the table stays disjoint at any instants.
   */
  lemma EndGraceEffect(t: Table, sub: Id, now: Instant, order: seq<Id>)
    requires Disjoint(t)
    requires IsOrdering(order, GraceSelection(t, sub, now))
    requires EndGraceNow(t, sub, now, order).Success?
    ensures var t' := EndGraceNow(t, sub, now, order).value;
            && t'.Keys == t.Keys
            && Disjoint(t')
            && (forall i :: i in t && LiveFrom(t[i], Grace, sub) && Live(t'[i]) ==>
                  if t'[i].endAt.Some? then t'[i].endAt.value <= now else t'[i] == t[i] && t[i].startAt < now)
            && (forall i :: i in t && Live(t[i]) && !From(t[i], Grace, sub) ==>
                  t'[i] == t[i] || MovedBack(t[i], t'[i], now))
            && (forall i :: i in t && !Live(t[i]) ==> t'[i] == t[i])
  {
    var ids := GraceSelection(t, sub, now);
    EndGraceAnyOrder(t, sub, now, order);
    GraceSelectionDistinct(t, sub, now);
    var ended := EndsMoved(t, ids, now);
    EndsMovedKeeps(t, ids, now);
    ShrunkDisjoint(ended, DeleteFutureGrace(ended, sub, now));
    forall i | i in t {
      EndGraceRow(t, sub, now, i);
    }
  }
}
