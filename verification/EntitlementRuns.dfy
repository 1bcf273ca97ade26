/**
 Runs of the entitlement table: every operation as one atomic step, and the
 invariant that every run keeps.
 */
module EntitlementRuns {
  import opened Wrappers
  import opened Instants
  import opened EntitlementTable
  import opened EntitlementTimeline
  import opened EntitlementBulk
  import opened EntitlementLoops
  import opened EntitlementOrders

  /** `order` is the order in which the database returned the selected rows; `tail` and `id` are what the insert read and drew. */
  datatype Op =
    | SetEndAtOp(id: Id, newEnd: Option<Instant>, now: Instant)
    | RevokeNowOp(id: Id, at: Instant, why: Option<RevokeReason>, now: Instant)
    | ExtendOp(sub: Id, endAt: Instant, order: seq<Id>)
    | EndGraceOp(sub: Id, now: Instant, order: seq<Id>)
    | SoftDeleteGraceOp(sub: Id, now: Instant)
    | EndBySubscriptionOp(sub: Id, endAt: Instant, now: Instant, why: Option<RevokeReason>)
    | EndByPaymentOp(payment: Id, endAt: Instant, now: Instant, why: Option<RevokeReason>)
    | ResumeOp(sub: Id, now: Instant)
    | RevokeByIdOp(id: Id, now: Instant, reason: RevokeReason)
    | RevokeByNameOp(sub: Id, name: string, at: Instant, reason: RevokeReason)
    | RevokeExistingOp(userId: string, name: string, sourceType: Option<SourceType>, sourceId: Option<Id>,
                       reason: RevokeReason, now: Instant)
    | InsertOp(id: Id, row: Entitlement)
    | PushOp(id: Id, push: Push, tail: Option<Instant>, now: Instant)

  ghost function Outcome(t: Table, op: Op): Result<Table, Error>
    requires op.ExtendOp? ==> forall i :: i in op.order ==> i in t
  {
    match op
    case SetEndAtOp(id, newEnd, now) => SetEndAt(t, id, newEnd, now)
    case RevokeNowOp(id, at, why, now) => RevokeNow(t, id, at, why, now)
    case ExtendOp(sub, endAt, order) => ExtendRun(t, t, order, endAt)
    case EndGraceOp(sub, now, order) => EndGraceNow(t, sub, now, order)
    case SoftDeleteGraceOp(sub, now) => Success(SoftDeleteGrace(t, sub, now))
    case EndBySubscriptionOp(sub, endAt, now, why) => EndActiveBySubscription(t, sub, endAt, now, why)
    case EndByPaymentOp(payment, endAt, now, why) => EndActiveByPayment(t, payment, endAt, now, why)
    case ResumeOp(sub, now) => Success(Resume(t, sub, now))
    case RevokeByIdOp(id, now, reason) => RevokeById(t, id, now, reason)
    case RevokeByNameOp(sub, name, at, reason) => Success(RevokeBySubscriptionAndName(t, sub, name, at, reason))
    case RevokeExistingOp(userId, name, sourceType, sourceId, reason, now) =>
      RevokeExisting(t, userId, name, sourceType, sourceId, reason, now)
    case InsertOp(id, row) => Insert(t, id, row)
    case PushOp(id, push, tail, now) => PushNew(t, id, push, tail, now)
  }

  /** A failed transaction leaves the table as it was. */
  ghost function Step(t: Table, op: Op): Table
    requires op.ExtendOp? ==> forall i :: i in op.order ==> i in t
  {
    match Outcome(t, op)
    case Success(t') => t'
    case Failure(_) => t
  }

  /** Setting a finite end of the live row `id` to a later finite one loses no more than the gaps behind it. */
  ghost predicate SetEndFits(t: Table, id: Id, newEnd: Option<Instant>) {
    id in t && Live(t[id]) && HasKey(t[id]) && t[id].endAt.Some? && newEnd.Some? ==> GapsAbsorb(t, id, newEnd.value)
  }

  /** Extending is safe: in every order, or a missing key makes it fail, or the rows happen to come latest first. */
  ghost predicate ExtendFits(t: Table, sub: Id, endAt: Instant, order: seq<Id>) {
    var ids := ExtendSelection(t, sub, endAt);
    && IsOrdering(order, ids)
    && (|| (Selected(t, ids, endAt) ==> OrderSafe(t, ids, endAt))
        || (LatestFirst(t, order) && forall i :: i in order ==> GapsAbsorb(t, i, endAt)))
  }

  /** A resumed window is the last of its timeline. */
  ghost predicate ResumeFits(t: Table, sub: Id, now: Instant) {
    forall i, j :: i in t && j in t && Resumable(t[i], sub, now) ==> !IsLater(t, i, j)
  }

  /** A live window, if it is inserted, meets no other of its timeline. */
  ghost predicate InsertFits(t: Table, id: Id, row: Entitlement) {
    Insert(t, id, row).Success? && Live(row) ==>
      forall i :: i in t && Live(t[i]) && SameTimeline(row, t[i]) ==> !Overlap(row, t[i])
  }

  /**
   What the callers owe, at any instants: the exact conditions for set-end, extension,
   resume and insert. Nothing is asked of the other operations; `order` and `tail` are what
   the database returned.
   */
  ghost predicate Legal(t: Table, op: Op) {
    match op
    case SetEndAtOp(id, newEnd, _) => SetEndFits(t, id, newEnd)
    case ExtendOp(sub, endAt, order) => ExtendFits(t, sub, endAt, order)
    case EndGraceOp(sub, now, order) => IsOrdering(order, GraceSelection(t, sub, now))
    case ResumeOp(sub, now) => ResumeFits(t, sub, now)
    case InsertOp(id, row) => InsertFits(t, id, row)
    case PushOp(_, push, tail, _) => IsTailEnd(t, push.userId, push.name, tail)
    case _ => true
  }

  lemma SetEndAtKeeps(t: Table, id: Id, newEnd: Option<Instant>, now: Instant)
    requires Disjoint(t) && SetEndFits(t, id, newEnd)
    ensures var r := SetEndAt(t, id, newEnd, now); r.Success? ==> Disjoint(r.value)
  {
    if id in t && Live(t[id]) && SetEndAt(t, id, newEnd, now).Success? {
      SetEndDisjoint(t, id, newEnd, now);
    }
  }

  lemma RevokeNowKeeps(t: Table, id: Id, at: Instant, why: Option<RevokeReason>, now: Instant)
    requires Disjoint(t)
    ensures var r := RevokeNow(t, id, at, why, now); r.Success? ==> Disjoint(r.value)
  {
    if id in t && Live(t[id]) && RevokeNow(t, id, at, why, now).Success? {
      RevokeDisjoint(t, id, at, why, now);
    }
  }

  lemma ExtendKeeps(t: Table, sub: Id, endAt: Instant, order: seq<Id>)
    requires Disjoint(t) && ExtendFits(t, sub, endAt, order)
    ensures var r := ExtendRun(t, t, order, endAt); r.Success? ==> Disjoint(r.value)
  {
    var ids := ExtendSelection(t, sub, endAt);
    if !(Selected(t, ids, endAt) ==> OrderSafe(t, ids, endAt)) {
      ExtendLatestFirst(t, t, order, endAt);
    } else if ExtendRun(t, t, order, endAt).Success? {
      RunSucceeds(t, t, order, endAt);
      SelectionSelected(t, sub, endAt);
      SafeInOrder(t, ids, order, endAt);
    }
  }

  predicate InPlace(op: Op) {
    || op.SoftDeleteGraceOp? || op.EndBySubscriptionOp? || op.EndByPaymentOp?
    || op.RevokeByIdOp? || op.RevokeByNameOp? || op.RevokeExistingOp?
  }

  /** The operations that end, revoke or delete in place only shrink windows, and never to nothing. */
  lemma InPlaceShrinks(t: Table, op: Op)
    requires NonEmptyWindows(t) && InPlace(op)
    ensures Step(t, op) == t || Shrunk(t, Step(t, op))
  {
    match op
    case SoftDeleteGraceOp(sub, now) => SoftDeleteGraceShrinks(t, sub, now);
    case EndBySubscriptionOp(sub, endAt, now, why) => EndActiveBySubscriptionShrinks(t, sub, endAt, now, why);
    case EndByPaymentOp(payment, endAt, now, why) => EndActiveByPaymentShrinks(t, payment, endAt, now, why);
    case RevokeByIdOp(id, now, reason) => RevokeByIdShrinks(t, id, now, reason);
    case RevokeByNameOp(sub, name, at, reason) => RevokeByNameShrinks(t, sub, name, at, reason);
    case RevokeExistingOp(u, n, st, sid, reason, now) => RevokeExistingShrinks(t, u, n, st, sid, reason, now);
  }

  /** So none of them can make windows overlap, at any instants. */
  lemma InPlaceDisjoint(t: Table, op: Op)
    requires Disjoint(t) && InPlace(op)
    ensures Disjoint(Step(t, op))
  {
    InPlaceShrinks(t, op);
    if Step(t, op) != t { ShrunkDisjoint(t, Step(t, op)); }
  }

  /** Every legal step, at any instants, keeps the windows of every timeline non-empty and disjoint. */
  lemma StepKeeps(t: Table, op: Op)
    requires Disjoint(t) && Legal(t, op)
    ensures Disjoint(Step(t, op))
  {
    match op
    case SetEndAtOp(id, newEnd, now) => SetEndAtKeeps(t, id, newEnd, now);
    case RevokeNowOp(id, at, why, now) => RevokeNowKeeps(t, id, at, why, now);
    case ExtendOp(sub, endAt, order) => ExtendKeeps(t, sub, endAt, order);
    case EndGraceOp(sub, now, order) =>
      if EndGraceNow(t, sub, now, order).Success? { EndGraceEffect(t, sub, now, order); }
    case ResumeOp(sub, now) => ResumeDisjoint(t, sub, now);
    case InsertOp(id, row) =>
      if Insert(t, id, row).Success? { InsertDisjoint(t, id, row); }
    case PushOp(id, push, tail, now) => PushDisjoint(t, id, push, tail, now);
    case _ => InPlaceDisjoint(t, op);
  }

  /** What is asked of a set-end, a resume or an insert is also needed. */
  lemma LegalIsNeeded(t: Table, op: Op)
    requires Disjoint(t) && (op.SetEndAtOp? || op.ResumeOp? || op.InsertOp?)
    ensures Legal(t, op) <==> Disjoint(Step(t, op))
  {
    match op
    case SetEndAtOp(id, newEnd, now) =>
      if SetEndAt(t, id, newEnd, now).Success? && Live(t[id]) { SetEndDisjoint(t, id, newEnd, now); }
    case ResumeOp(sub, now) => ResumeDisjoint(t, sub, now);
    case InsertOp(id, row) =>
      if Insert(t, id, row).Success? { InsertDisjoint(t, id, row); }
  }

  ghost predicate LegalRun(t: Table, ops: seq<Op>)
    decreases ops
  {
    ops == [] || (Legal(t, ops[0]) && LegalRun(Step(t, ops[0]), ops[1..]))
  }

  ghost function Run(t: Table, ops: seq<Op>): Table
    requires LegalRun(t, ops)
    decreases ops
  {
    if ops == [] then t else Run(Step(t, ops[0]), ops[1..])
  }

  lemma {:induction false} RunKeeps(t: Table, ops: seq<Op>)
    requires Disjoint(t) && LegalRun(t, ops)
    ensures Disjoint(Run(t, ops))
    decreases ops
  {
    if ops != [] {
      StepKeeps(t, ops[0]);
      RunKeeps(Step(t, ops[0]), ops[1..]);
    }
  }

  /**
   Over every legal run from the empty table, at any instants, every timeline's live windows
   stay non-empty and pairwise disjoint, at most one of them is indefinite, and that one is
   last.
   */
  lemma RunFromEmpty(ops: seq<Op>)
    requires LegalRun(map[], ops)
    ensures var t := Run(map[], ops);
            && Disjoint(t)
            && forall i, j | i in t && j in t && i != j && Live(t[i]) && Live(t[j]) && SameTimeline(t[i], t[j]) &&
                             t[i].endAt.None? ::
                 t[j].endAt.Some? && t[j].startAt < t[i].startAt
  {
    RunKeeps(map[], ops);
    var t := Run(map[], ops);
    forall i, j | i in t && j in t && i != j && Live(t[i]) && Live(t[j]) && SameTimeline(t[i], t[j]) && t[i].endAt.None?
      ensures t[j].endAt.Some? && t[j].startAt < t[i].startAt
    {
      IndefiniteIsLast(t, i, j);
    }
  }

  // ----- callers that only use whole seconds -----

  ghost predicate OnSecondIfSome(x: Option<Instant>) {
    x.Some? ==> OnSecond(x.value)
  }

  /** Every instant that becomes a start or an end lies on a whole second. */
  ghost predicate OnSeconds(op: Op) {
    match op
    case SetEndAtOp(_, newEnd, _) => OnSecondIfSome(newEnd)
    case RevokeNowOp(_, at, _, _) => OnSecond(at)
    case ExtendOp(_, endAt, _) => OnSecond(endAt)
    case EndGraceOp(_, now, _) => OnSecond(now)
    case EndBySubscriptionOp(_, endAt, _, _) => OnSecond(endAt)
    case InsertOp(_, row) => OnSecond(row.startAt) && OnSecondIfSome(row.endAt)
    case PushOp(_, push, tail, now) =>
      OnSecond(now) && OnSecondIfSome(push.notBefore) && OnSecondIfSome(push.duration) && OnSecondIfSome(push.endAt)
    case _ => true
  }

  /** What such callers owe: no gap has to be measured, for a set-end or for rows that come latest first. */
  ghost predicate WholeLegal(t: Table, op: Op) {
    && OnSeconds(op)
    && match op
       case SetEndAtOp(_, _, _) => true
       case ExtendOp(sub, endAt, order) =>
         ExtendFits(t, sub, endAt, order) || (IsOrdering(order, ExtendSelection(t, sub, endAt)) && LatestFirst(t, order))
       case _ => Legal(t, op)
  }

  lemma WholeIsLegal(t: Table, op: Op)
    requires WholeSecondWindows(t) && WholeLegal(t, op)
    ensures Legal(t, op)
  {
    match op
    case SetEndAtOp(id, newEnd, now) =>
      if id in t && Live(t[id]) && t[id].endAt.Some? && newEnd.Some? { WholeSecondsGaps(t, id, newEnd.value); }
    case ExtendOp(sub, endAt, order) =>
      if !ExtendFits(t, sub, endAt, order) {
        forall i | i in order {
          WholeSecondsGaps(t, i, endAt);
        }
      }
    case _ =>
  }

  lemma RevokeWholeSeconds(t: Table, id: Id, at: Instant, why: Option<RevokeReason>, now: Instant)
    requires WholeSecondWindows(t) && id in t
    ensures WholeSecondWindows(Revoke(t, id, at, why, now))
  {
  }

  lemma {:induction false} GraceRunWholeSeconds(t: Table, order: seq<Id>, now: Instant)
    requires WholeSecondWindows(t) && OnSecond(now)
    ensures var r := GraceRun(t, order, now); r.Success? ==> WholeSecondWindows(r.value)
  {
    if order != [] && SetEndAt(t, order[0], Some(now), now).Success? {
      if order[0] in t { SetEndWholeSeconds(t, order[0], Some(now), now); }
      GraceRunWholeSeconds(SetEndAt(t, order[0], Some(now), now).value, order[1..], now);
    }
  }

  lemma NewWindowWholeSeconds(t: Table, id: Id, row: Entitlement)
    requires WholeSecondWindows(t) && OnSecond(row.startAt) && OnSecondIfSome(row.endAt)
    ensures WholeSecondWindows(t[id := row])
  {
  }

  lemma PushWholeSeconds(t: Table, id: Id, push: Push, tail: Option<Instant>, now: Instant)
    requires Disjoint(t) && WholeSecondWindows(t) && WholeLegal(t, PushOp(id, push, tail, now))
    ensures var r := PushNew(t, id, push, tail, now); r.Success? ==> WholeSecondWindows(r.value)
  {
    PushDisjoint(t, id, push, tail, now);
    var r := PushNew(t, id, push, tail, now);
    if r.Success? && r.value != t {
      assert OnSecondIfSome(tail);
      NewWindowWholeSeconds(t, id, r.value[id]);
    }
  }

  lemma InPlaceWholeSeconds(t: Table, op: Op)
    requires WholeSecondWindows(t) && InPlace(op) && OnSeconds(op)
    ensures WholeSecondWindows(Step(t, op))
  {
  }

  lemma StepWholeSeconds(t: Table, op: Op)
    requires Disjoint(t) && WholeSecondWindows(t) && WholeLegal(t, op)
    ensures WholeSecondWindows(Step(t, op))
  {
    match op
    case SetEndAtOp(id, newEnd, now) => if id in t { SetEndWholeSeconds(t, id, newEnd, now); }
    case RevokeNowOp(id, at, why, now) => if id in t { RevokeWholeSeconds(t, id, at, why, now); }
    case ExtendOp(sub, endAt, order) =>
      if ExtendRun(t, t, order, endAt).Success? { RunWholeSeconds(t, t, order, endAt); }
    case EndGraceOp(sub, now, order) => GraceRunWholeSeconds(t, order, now);
    case ResumeOp(_, _) =>
    case InsertOp(id, row) => NewWindowWholeSeconds(t, id, row);
    case PushOp(id, push, tail, now) => PushWholeSeconds(t, id, push, tail, now);
    case _ => InPlaceWholeSeconds(t, op);
  }

  ghost predicate WholeRun(t: Table, ops: seq<Op>)
    decreases ops
  {
    ops == [] || (WholeLegal(t, ops[0]) && WholeRun(Step(t, ops[0]), ops[1..]))
  }

  /** A run on whole seconds is legal without a gap measured, and every bound stays on a whole second. */
  lemma {:induction false} WholeRunKeeps(t: Table, ops: seq<Op>)
    requires Disjoint(t) && WholeSecondWindows(t) && WholeRun(t, ops)
    ensures LegalRun(t, ops) && Disjoint(Run(t, ops)) && WholeSecondWindows(Run(t, ops))
    decreases ops
  {
    if ops != [] {
      WholeIsLegal(t, ops[0]);
      StepKeeps(t, ops[0]);
      StepWholeSeconds(t, ops[0]);
      WholeRunKeeps(Step(t, ops[0]), ops[1..]);
    }
  }
}
