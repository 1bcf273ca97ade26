/**
 The entitlement table: access windows [startAt, endAt), an absent end meaning
 indefinite, and the queries that read them.
 */
module EntitlementTable {
  import opened Wrappers
  import opened Instants

  type Id = nat

  datatype SourceType = Subscription | OneOff | Admin | Grace

  datatype RevokeReason = ByAdmin | Downgrade | Chargeback | Refund | Fraud | DunningFailed | Superseded

  datatype Entitlement = Entitlement(
    userId: string,
    name: string,
    startAt: Instant,
    endAt: Option<Instant>,
    sourceType: SourceType,
    sourceId: Option<Id>,
    revokedAt: Option<Instant>,
    revokeReason: Option<RevokeReason>,
    deletedAt: Option<Instant>)

  type Table = map<Id, Entitlement>

  datatype Error =
    | NotFound
    | InvalidEnd
    | InvalidRevoke
    | MissingKey
    | InvalidArgument
    | DuplicateId

  predicate Live(e: Entitlement) {
    e.revokedAt.None? && e.deletedAt.None?
  }

  predicate On(e: Entitlement, userId: string, name: string) {
    e.userId == userId && e.name == name
  }

  predicate SameTimeline(a: Entitlement, b: Entitlement) {
    On(b, a.userId, a.name)
  }

  /** The lock on a timeline refuses an empty user or entitlement name. */
  predicate HasKey(e: Entitlement) {
    e.userId != "" && e.name != ""
  }

  predicate EndsAfter(e: Entitlement, t: Instant) {
    e.endAt.None? || e.endAt.value > t
  }

  predicate ActiveAt(e: Entitlement, t: Instant) {
    Live(e) && e.startAt <= t && EndsAfter(e, t)
  }

  /** The join condition of the overlap audit, an absent end counting as infinity. */
  predicate Overlap(a: Entitlement, b: Entitlement) {
    EndsAfter(b, a.startAt) && EndsAfter(a, b.startAt)
  }

  ghost predicate NonEmptyWindows(t: Table) {
    forall i :: i in t && Live(t[i]) ==> EndsAfter(t[i], t[i].startAt)
  }

  /** The invariant of the table: on each timeline the live windows are non-empty and disjoint. */
  ghost predicate Disjoint(t: Table) {
    && NonEmptyWindows(t)
    && forall i, j :: i in t && j in t && i != j && Live(t[i]) && Live(t[j]) && SameTimeline(t[i], t[j]) ==>
        !Overlap(t[i], t[j])
  }

  /** Every instant of a live window lies on a whole second. */
  ghost predicate WholeSecondWindows(t: Table) {
    forall i :: i in t && Live(t[i]) ==>
      OnSecond(t[i].startAt) && (t[i].endAt.Some? ==> OnSecond(t[i].endAt.value))
  }

  // ----- queries -----

  predicate IsEntitled(t: Table, userId: string, name: string, at: Instant) {
    exists i :: i in t && On(t[i], userId, name) && ActiveAt(t[i], at)
  }

  predicate HasActiveIndefinite(t: Table, userId: string, name: string, at: Instant) {
    exists i :: i in t && On(t[i], userId, name) && Live(t[i]) && t[i].endAt.None? && t[i].startAt <= at
  }

  function ListActiveEntitlements(t: Table, userId: string, at: Instant): set<string> {
    set i | i in t && t[i].userId == userId && ActiveAt(t[i], at) :: t[i].name
  }

  /** The rows `ListActiveRecords` returns; their order by start is left to the caller. */
  function ListActiveRecords(t: Table, userId: string, at: Instant): set<Id> {
    set i | i in t && t[i].userId == userId && ActiveAt(t[i], at)
  }

  predicate FiniteActive(e: Entitlement, userId: string, name: string, at: Instant) {
    On(e, userId, name) && ActiveAt(e, at) && e.endAt.Some?
  }

  /** What `GetLatestFiniteActive` may return: a finite active row no other outlasts, or nothing when there is none. */
  ghost predicate IsLatestFiniteActive(t: Table, userId: string, name: string, at: Instant, row: Option<Id>) {
    match row
    case Some(i) =>
      && i in t && FiniteActive(t[i], userId, name, at)
      && forall j :: j in t && FiniteActive(t[j], userId, name, at) ==> t[j].endAt.value <= t[i].endAt.value
    case None =>
      forall j :: j in t ==> !FiniteActive(t[j], userId, name, at)
  }

  /**
   On a disjoint table the five queries agree at every time: access, the list of
   names, exactly one record of the name, and exactly one of "an indefinite window"
   and "a latest finite window".
   */
  lemma QueriesAgree(t: Table, userId: string, name: string, at: Instant, latest: Option<Id>)
    requires Disjoint(t)
    requires IsLatestFiniteActive(t, userId, name, at, latest)
    ensures IsEntitled(t, userId, name, at) <==> name in ListActiveEntitlements(t, userId, at)
    ensures var named := set i | i in ListActiveRecords(t, userId, at) && t[i].name == name;
            |named| <= 1 && (IsEntitled(t, userId, name, at) <==> |named| == 1)
    ensures !(HasActiveIndefinite(t, userId, name, at) && latest.Some?)
    ensures IsEntitled(t, userId, name, at) <==> (HasActiveIndefinite(t, userId, name, at) || latest.Some?)
  {
    var named := set i | i in ListActiveRecords(t, userId, at) && t[i].name == name;
    forall i, j | i in named && j in named
      ensures i == j
    {
      assert On(t[i], userId, name) && ActiveAt(t[i], at) && ActiveAt(t[j], at);
    }
    if IsEntitled(t, userId, name, at) {
      var i :| i in t && On(t[i], userId, name) && ActiveAt(t[i], at);
      assert i in named;
      assert named == {i};
    } else {
      assert named == {};
    }
  }

  /** On a disjoint timeline there is at most one indefinite window, and nothing starts after it. */
  lemma IndefiniteIsLast(t: Table, i: Id, j: Id)
    requires Disjoint(t)
    requires i in t && j in t && i != j && Live(t[i]) && Live(t[j]) && SameTimeline(t[i], t[j])
    requires t[i].endAt.None?
    ensures t[j].endAt.Some? && t[j].endAt.value <= t[i].startAt
    ensures t[j].startAt < t[i].startAt
  {
  }
}
