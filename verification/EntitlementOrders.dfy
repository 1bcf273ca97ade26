/**
 Extending a subscription whose selected windows may share timelines, in whatever order
 the database returns them: when every order keeps the table disjoint, and when every
 order reaches the requested end.

 A round moves every window after the one it extends, if that has a second or more to go.
 A window once moved starts less than a second before the new end or later, so every later
 round that moves anything, but its own, moves it too; its own round then no longer edits it.
 */
module EntitlementOrders {
  import opened Wrappers
  import opened Instants
  import opened EntitlementTable
  import opened EntitlementTimeline
  import opened EntitlementLoops

  /** How far the round of the selected row `s` moves other rows. */
  function Shift(t: Table, s: Id, endAt: Instant): int
    requires s in t && t[s].endAt.Some?
  {
    ShiftOf(endAt - t[s].endAt.value)
  }

  /** The fraction of a second by which the round of `s` moves others less than the end of `s`. */
  function Lost(t: Table, s: Id, endAt: Instant): int
    requires s in t && t[s].endAt.Some?
  {
    endAt - t[s].endAt.value - Shift(t, s, endAt)
  }

  /** A selected window before row `w` on its timeline moves what follows it. */
  ghost predicate HasBefore(t: Table, ids: set<Id>, w: Id, endAt: Instant)
    requires w in t && ids <= t.Keys
  {
    exists a :: a in ids && IsLater(t, a, w) && Shift(t, a, endAt) > 0
  }

  /**
   How much nearer the end of w can come to the start of a later v: the fraction lost
   when w itself is extended, and the change of v when a move of w before the round of v
   makes that round move w too.
   */
  ghost function Slack(t: Table, ids: set<Id>, w: Id, v: Id, endAt: Instant): int
    requires Selected(t, ids, endAt) && ids <= t.Keys && w in t && v in t
  {
    (if w in ids then Lost(t, w, endAt) else 0) +
    (if v in ids && HasBefore(t, ids, w, endAt) then Shift(t, v, endAt) else 0)
  }

  /** Row `w`, not selected itself, clears `v` when it alone is moved by the change of `v`. */
  ghost predicate Leaps(t: Table, ids: set<Id>, w: Id, v: Id, endAt: Instant)
    requires Selected(t, ids, endAt) && w in t
  {
    w !in ids && v in ids && t[w].startAt + Shift(t, v, endAt) >= t[v].endAt.value
  }

  ghost predicate Spaced(t: Table, ids: set<Id>, w: Id, v: Id, endAt: Instant)
    requires Selected(t, ids, endAt) && ids <= t.Keys && w in t && v in t && IsLater(t, w, v)
  {
    t[w].endAt.value + Slack(t, ids, w, v, endAt) <= t[v].startAt || Leaps(t, ids, w, v, endAt)
  }

  /**
   The condition on a table: every window is as far from each later one of its timeline as
   the two can come nearer, or is not selected and jumps past the end of the later one.
   */
  ghost predicate OrderSafe(t: Table, ids: set<Id>, endAt: Instant)
    requires Selected(t, ids, endAt) && ids <= t.Keys
  {
    forall w, v :: w in t && v in t && Live(t[w]) && IsLater(t, w, v) ==> Spaced(t, ids, w, v, endAt)
  }

  // ----- one row through the rounds -----

  /**
   Row `w` during a run: moved by some distance, to less than a second before `endAt` or
   later if at all, and with its end rewritten before that if it is selected and its round
   is over.
   */
  ghost predicate RowAt(t: Table, cur: Table, ids: set<Id>, order: seq<Id>, w: Id, endAt: Instant)
    requires w in t
  {
    && w in cur
    && var d := cur[w].startAt - t[w].startAt;
    && d >= 0 && (d > 0 ==> cur[w].startAt > endAt - SECOND)
    && (cur[w] == Moved(t[w], d) ||
        (w in ids && w !in order && cur[w] == Moved(t[w].(endAt := Some(endAt)), d)))
  }

  /** What the round of `r` makes of a row. */
  function RoundRow(t: Table, cur: Table, r: Id, endAt: Instant, w: Id): Entitlement
    requires r in t && t[r].endAt.Some? && w in t && w in cur
  {
    if w == r then if cur[w].startAt == t[w].startAt then cur[w].(endAt := Some(endAt)) else cur[w]
    else if SameTimeline(t[r], t[w]) && (cur[w].startAt > t[w].startAt || IsLater(t, r, w))
    then Moved(cur[w], Shift(t, r, endAt))
    else cur[w]
  }

  lemma RoundRowStep(t: Table, cur: Table, ids: set<Id>, order: seq<Id>, endAt: Instant, w: Id)
    requires Selected(t, ids, endAt) && order != [] && order[0] in ids
    requires w in t && Live(t[w]) && RowAt(t, cur, ids, order, w, endAt)
    ensures var r := ExtendOne(cur, order[0], t[order[0]], endAt);
            && r.Success? && w in r.value
            && r.value[w] == RoundRow(t, cur, order[0], endAt, w)
  {
  }

  // ----- two rows through the rounds -----

  /**
   Row `w` before row `v` of its timeline: the distance between them can stand what may
   still bring them nearer, or they have moved alike and `w` can leap, or `w` has leapt.
   */
  ghost predicate PairAt(t: Table, cur: Table, ids: set<Id>, order: seq<Id>, w: Id, v: Id, endAt: Instant)
    requires Selected(t, ids, endAt) && ids <= t.Keys && w in t && v in t && IsLater(t, w, v)
  {
    && RowAt(t, cur, ids, order, w, endAt) && RowAt(t, cur, ids, order, v, endAt)
    && var (d, f) := (cur[w].startAt - t[w].startAt, cur[v].startAt - t[v].startAt);
    && (d > 0 ==> f > 0 && HasBefore(t, ids, w, endAt))
    && cur[w].endAt.Some?
    && var gap := cur[v].startAt - cur[w].endAt.value;
    var lost := if w in ids && w in order && d == 0 then Lost(t, w, endAt) else 0;
    if v in ids && v in order && HasBefore(t, ids, w, endAt) then
      gap >= lost + Shift(t, v, endAt) || (Leaps(t, ids, w, v, endAt) && d == f)
    else
      gap >= lost ||
      (Leaps(t, ids, w, v, endAt) && d > 0 && f > 0 && f == d - Shift(t, v, endAt) && cur[v] == Moved(t[v], f))
  }

  /** The rows `next` holds for `w` and `v` are those after the round of `r`. */
  ghost predicate RoundOf(t: Table, cur: Table, next: Table, r: Id, endAt: Instant, w: Id)
    requires r in t && t[r].endAt.Some? && w in t && w in cur
  {
    w in next && next[w] == RoundRow(t, cur, r, endAt, w)
  }

  lemma RowRound(t: Table, cur: Table, next: Table, ids: set<Id>, order: seq<Id>, w: Id, endAt: Instant)
    requires Selected(t, ids, endAt) && order != [] && order[0] in ids && order[0] !in order[1..]
    requires w in t && RowAt(t, cur, ids, order, w, endAt) && RoundOf(t, cur, next, order[0], endAt, w)
    ensures RowAt(t, next, ids, order[1..], w, endAt)
  {
    assert forall i :: i in order <==> i == order[0] || i in order[1..];
  }

  /** `next` holds the rows w and v of `cur` after the round that is first in `order`. */
  ghost predicate PairStep(t: Table, cur: Table, next: Table, ids: set<Id>, order: seq<Id>, w: Id, v: Id, endAt: Instant) {
    && Selected(t, ids, endAt) && ids <= t.Keys
    && order != [] && order[0] in ids && order[0] !in order[1..]
    && w in t && v in t && Live(t[w]) && IsLater(t, w, v) && t[w].startAt < t[w].endAt.value
    && Clear(t, w, order[0]) && Clear(t, v, order[0])
    && PairAt(t, cur, ids, order, w, v, endAt)
    && RoundOf(t, cur, next, order[0], endAt, w) && RoundOf(t, cur, next, order[0], endAt, v)
    && RowAt(t, next, ids, order[1..], w, endAt) && RowAt(t, next, ids, order[1..], v, endAt)
    && (v in order <==> v == order[0] || v in order[1..])
  }

  lemma PairRoundEarlier(t: Table, cur: Table, next: Table, ids: set<Id>, order: seq<Id>, w: Id, v: Id, endAt: Instant)
    requires PairStep(t, cur, next, ids, order, w, v, endAt) && order[0] == w
    ensures PairAt(t, next, ids, order[1..], w, v, endAt)
  {
  }

  lemma PairRoundLater(t: Table, cur: Table, next: Table, ids: set<Id>, order: seq<Id>, w: Id, v: Id, endAt: Instant)
    requires PairStep(t, cur, next, ids, order, w, v, endAt) && order[0] == v
    ensures PairAt(t, next, ids, order[1..], w, v, endAt)
  {
  }

  lemma PairRoundBefore(t: Table, cur: Table, next: Table, ids: set<Id>, order: seq<Id>, w: Id, v: Id, endAt: Instant)
    requires PairStep(t, cur, next, ids, order, w, v, endAt) && IsLater(t, order[0], w)
    ensures PairAt(t, next, ids, order[1..], w, v, endAt)
  {
  }

  lemma PairRoundBetween(t: Table, cur: Table, next: Table, ids: set<Id>, order: seq<Id>, w: Id, v: Id, endAt: Instant)
    requires PairStep(t, cur, next, ids, order, w, v, endAt)
    requires order[0] != w && order[0] != v && IsLater(t, order[0], v) && !IsLater(t, order[0], w)
    ensures PairAt(t, next, ids, order[1..], w, v, endAt)
  {
    if v in ids { ShiftMonotone(endAt - t[v].endAt.value, endAt - t[order[0]].endAt.value); }
  }

  lemma PairRoundOther(t: Table, cur: Table, next: Table, ids: set<Id>, order: seq<Id>, w: Id, v: Id, endAt: Instant)
    requires PairStep(t, cur, next, ids, order, w, v, endAt)
    requires order[0] != w && order[0] != v && !IsLater(t, order[0], v)
    ensures PairAt(t, next, ids, order[1..], w, v, endAt)
  {
  }

  lemma PairRound(t: Table, cur: Table, next: Table, ids: set<Id>, order: seq<Id>, w: Id, v: Id, endAt: Instant)
    requires PairStep(t, cur, next, ids, order, w, v, endAt)
    ensures PairAt(t, next, ids, order[1..], w, v, endAt)
  {
    if order[0] == w {
      PairRoundEarlier(t, cur, next, ids, order, w, v, endAt);
    } else if order[0] == v {
      PairRoundLater(t, cur, next, ids, order, w, v, endAt);
    } else if IsLater(t, order[0], w) {
      PairRoundBefore(t, cur, next, ids, order, w, v, endAt);
    } else if IsLater(t, order[0], v) {
      PairRoundBetween(t, cur, next, ids, order, w, v, endAt);
    } else {
      PairRoundOther(t, cur, next, ids, order, w, v, endAt);
    }
  }

  lemma {:induction false} PairRun(t: Table, cur: Table, ids: set<Id>, order: seq<Id>, w: Id, v: Id, endAt: Instant)
    requires Selected(t, ids, endAt) && ids <= t.Keys
    requires w in t && v in t && Live(t[w]) && IsLater(t, w, v) && t[w].startAt < t[w].endAt.value
    requires forall r :: r in order ==> r in ids && Clear(t, w, r) && Clear(t, v, r)
    requires forall j, k :: 0 <= j < k < |order| ==> order[j] != order[k]
    requires PairAt(t, cur, ids, order, w, v, endAt)
    ensures var r := ExtendRun(cur, t, order, endAt);
            r.Success? && PairAt(t, r.value, ids, [], w, v, endAt)
    decreases order
  {
    if order != [] {
      assert order == [order[0]] + order[1..] && order[0] in order;
      RoundRowStep(t, cur, ids, order, endAt, w);
      RoundRowStep(t, cur, ids, order, endAt, v);
      var next := ExtendOne(cur, order[0], t[order[0]], endAt).value;
      RowRound(t, cur, next, ids, order, w, endAt);
      RowRound(t, cur, next, ids, order, v, endAt);
      PairRound(t, cur, next, ids, order, w, v, endAt);
      PairRun(t, next, ids, order[1..], w, v, endAt);
    }
  }

  /** A run changes no row's key and makes no row live or dead. */
  lemma {:induction false} RunKeepsRows(t: Table, cur: Table, ids: set<Id>, order: seq<Id>, endAt: Instant)
    requires Selected(t, ids, endAt) && forall r :: r in order ==> r in ids
    ensures var r := ExtendRun(cur, t, order, endAt);
            && r.Success? && r.value.Keys == cur.Keys
            && forall i :: i in cur ==> SameTimeline(cur[i], r.value[i]) && (Live(cur[i]) <==> Live(r.value[i]))
    decreases order
  {
    if order != [] {
      assert order == [order[0]] + order[1..] && order[0] in order;
      RunKeepsRows(t, ExtendOne(cur, order[0], t[order[0]], endAt).value, ids, order[1..], endAt);
    }
  }

  lemma RowStarts(t: Table, ids: set<Id>, order: seq<Id>, w: Id, endAt: Instant)
    requires w in t
    ensures RowAt(t, t, ids, order, w, endAt)
  {
  }

  /** In a safe table two live windows of one timeline are apart after any run, and neither is empty. */
  lemma PairEndsApart(t: Table, ids: set<Id>, order: seq<Id>, w: Id, v: Id, endAt: Instant)
    requires Disjoint(t) && Selected(t, ids, endAt) && OrderSafe(t, ids, endAt) && ids <= t.Keys
    requires IsOrdering(order, ids)
    requires w in t && v in t && Live(t[w]) && IsLater(t, w, v)
    ensures var r := ExtendRun(t, t, order, endAt);
            && r.Success? && w in r.value && v in r.value
            && !Overlap(r.value[w], r.value[v])
  {
    AllClear(t, w);
    AllClear(t, v);
    RowStarts(t, ids, order, w, endAt);
    RowStarts(t, ids, order, v, endAt);
    PairRun(t, t, ids, order, w, v, endAt);
  }

  lemma {:induction false} RowRun(t: Table, cur: Table, ids: set<Id>, order: seq<Id>, w: Id, endAt: Instant)
    requires Selected(t, ids, endAt)
    requires forall r :: r in order ==> r in ids
    requires forall j, k :: 0 <= j < k < |order| ==> order[j] != order[k]
    requires w in t && Live(t[w]) && RowAt(t, cur, ids, order, w, endAt)
    ensures var r := ExtendRun(cur, t, order, endAt);
            r.Success? && RowAt(t, r.value, ids, [], w, endAt)
    decreases order
  {
    if order != [] {
      assert order == [order[0]] + order[1..] && order[0] in order;
      RoundRowStep(t, cur, ids, order, endAt, w);
      var next := ExtendOne(cur, order[0], t[order[0]], endAt).value;
      RowRound(t, cur, next, ids, order, w, endAt);
      RowRun(t, next, ids, order[1..], w, endAt);
    }
  }

  /** A safe table stays disjoint in every order. */
  lemma SafeInOrder(t: Table, ids: set<Id>, order: seq<Id>, endAt: Instant)
    requires Disjoint(t) && Selected(t, ids, endAt) && OrderSafe(t, ids, endAt) && ids <= t.Keys
    requires IsOrdering(order, ids)
    ensures var r := ExtendRun(t, t, order, endAt);
            r.Success? && Disjoint(r.value)
  {
    RunKeepsRows(t, t, ids, order, endAt);
    var t' := ExtendRun(t, t, order, endAt).value;
    forall i | i in t' && Live(t'[i])
      ensures EndsAfter(t'[i], t'[i].startAt)
    {
      RowStarts(t, ids, order, i, endAt);
      RowRun(t, t, ids, order, i, endAt);
    }
    forall i, j | i in t' && j in t' && i != j && Live(t'[i]) && Live(t'[j]) && SameTimeline(t'[i], t'[j])
      ensures !Overlap(t'[i], t'[j])
    {
      EarlierOrLater(t, i, j);
      EarlierOrLater(t, j, i);
      if IsLater(t, i, j) {
        PairEndsApart(t, ids, order, i, j, endAt);
      } else {
        PairEndsApart(t, ids, order, j, i, endAt);
      }
    }
  }

  // ----- an order that breaks an unsafe table -----

  /** Overlapping rows that have been moved are moved alike by the rounds of all others. */
  lemma MovedClash(t: Table, cur: Table, ids: set<Id>, order: seq<Id>, w: Id, v: Id, endAt: Instant)
    requires Selected(t, ids, endAt) && Clash(cur, w, v)
    requires cur[w].startAt > endAt - SECOND && cur[v].startAt > endAt - SECOND
    requires forall r :: r in order ==> r in ids && r != w && r != v
    ensures var r := ExtendRun(cur, t, order, endAt); r.Success? && !Disjoint(r.value)
  {
    RunSucceeds(cur, t, order, endAt);
    forall r | r in order
      ensures MovesAlike(cur, t[r], w, v, endAt)
    {
    }
    ClashStays(cur, t, order, w, v, endAt);
  }

  /** Every finite set of rows can come in some order. */
  lemma {:induction false} SomeOrdering(ids: set<Id>) returns (order: seq<Id>)
    ensures IsOrdering(order, ids)
  {
    if ids == {} {
      order := [];
    } else {
      var i :| i in ids;
      var rest := SomeOrdering(ids - {i});
      order := rest + [i];
    }
  }

  /** One round of a run, seen by two rows. */
  lemma Round(t: Table, cur: Table, ids: set<Id>, r: Id, rest: seq<Id>, w: Id, v: Id, endAt: Instant) returns (next: Table)
    requires Selected(t, ids, endAt) && ids <= t.Keys && r in ids && r !in rest && forall i :: i in rest ==> i in ids
    requires w in t && Live(t[w]) && RowAt(t, cur, ids, [r] + rest, w, endAt)
    requires v in t && Live(t[v]) && RowAt(t, cur, ids, [r] + rest, v, endAt)
    ensures RoundOf(t, cur, next, r, endAt, w) && RowAt(t, next, ids, rest, w, endAt)
    ensures RoundOf(t, cur, next, r, endAt, v) && RowAt(t, next, ids, rest, v, endAt)
    ensures ExtendRun(cur, t, [r] + rest, endAt) == ExtendRun(next, t, rest, endAt)
  {
    var order := [r] + rest;
    assert order[0] == r && order[1..] == rest;
    RoundRowStep(t, cur, ids, order, endAt, w);
    RoundRowStep(t, cur, ids, order, endAt, v);
    next := ExtendOne(cur, r, t[r], endAt).value;
    RowRound(t, cur, next, ids, order, w, endAt);
    RowRound(t, cur, next, ids, order, v, endAt);
  }

  /** w, between the selected a and v, is not selected: a's round moves both, v's moves w once more. */
  lemma TwoRoundRows(t: Table, t1: Table, t2: Table, ids: set<Id>, a: Id, w: Id, v: Id, endAt: Instant)
    requires Selected(t, ids, endAt) && a in ids && v in ids && w in t && w !in ids && Live(t[w])
    requires IsLater(t, a, w) && IsLater(t, w, v) && t[w].startAt < t[w].endAt.value && Shift(t, a, endAt) > 0
    requires RoundOf(t, t, t1, a, endAt, w) && RoundOf(t, t, t1, a, endAt, v)
    requires RoundOf(t, t1, t2, v, endAt, w) && RoundOf(t, t1, t2, v, endAt, v)
    ensures t2[w] == Moved(t[w], Shift(t, a, endAt) + Shift(t, v, endAt))
    ensures t2[v] == Moved(t[v], Shift(t, a, endAt))
  {
  }

  lemma TwoRounds(t: Table, ids: set<Id>, a: Id, w: Id, v: Id, rest: seq<Id>, endAt: Instant) returns (t2: Table)
    requires Selected(t, ids, endAt) && ids <= t.Keys && IsOrdering(rest, ids - {a, w, v})
    requires a in ids && v in ids && w in t && w !in ids && Live(t[w])
    requires IsLater(t, a, w) && IsLater(t, w, v) && t[w].startAt < t[w].endAt.value && Shift(t, a, endAt) > 0
    ensures ExtendRun(t, t, [a] + ([v] + rest), endAt) == ExtendRun(t2, t, rest, endAt)
    ensures w in t2 && t2[w] == Moved(t[w], Shift(t, a, endAt) + Shift(t, v, endAt))
    ensures v in t2 && t2[v] == Moved(t[v], Shift(t, a, endAt))
  {
    RowStarts(t, ids, [a] + ([v] + rest), w, endAt);
    RowStarts(t, ids, [a] + ([v] + rest), v, endAt);
    var t1 := Round(t, t, ids, a, [v] + rest, w, v, endAt);
    t2 := Round(t, t1, ids, v, rest, w, v, endAt);
    TwoRoundRows(t, t1, t2, ids, a, w, v, endAt);
  }

  /** w is selected too: its own round edits it and moves v, a's moves both. */
  lemma EditedRoundRows(t: Table, t1: Table, t2: Table, ids: set<Id>, a: Id, w: Id, v: Id, endAt: Instant)
    requires Selected(t, ids, endAt) && a in ids && w in ids && v in t
    requires IsLater(t, a, w) && IsLater(t, w, v)
    requires RoundOf(t, t, t1, w, endAt, w) && RoundOf(t, t, t1, w, endAt, v)
    requires RoundOf(t, t1, t2, a, endAt, w) && RoundOf(t, t1, t2, a, endAt, v)
    ensures t2[w] == Moved(t[w].(endAt := Some(endAt)), Shift(t, a, endAt))
    ensures t2[v] == Moved(t[v], Shift(t, w, endAt) + Shift(t, a, endAt))
  {
  }

  lemma EditedRounds(t: Table, ids: set<Id>, a: Id, w: Id, v: Id, rest: seq<Id>, endAt: Instant) returns (t2: Table)
    requires Selected(t, ids, endAt) && ids <= t.Keys && IsOrdering(rest, ids - {a, w})
    requires a in ids && w in ids && v in t && IsLater(t, a, w) && IsLater(t, w, v)
    ensures ExtendRun(t, t, [w] + ([a] + rest), endAt) == ExtendRun(t2, t, rest, endAt)
    ensures RowAt(t, t2, ids, rest, w, endAt) && t2[w] == Moved(t[w].(endAt := Some(endAt)), Shift(t, a, endAt))
    ensures RowAt(t, t2, ids, rest, v, endAt) && t2[v] == Moved(t[v], Shift(t, w, endAt) + Shift(t, a, endAt))
  {
    RowStarts(t, ids, [w] + ([a] + rest), w, endAt);
    RowStarts(t, ids, [w] + ([a] + rest), v, endAt);
    var t1 := Round(t, t, ids, w, [a] + rest, w, v, endAt);
    t2 := Round(t, t1, ids, a, rest, w, v, endAt);
    EditedRoundRows(t, t1, t2, ids, a, w, v, endAt);
  }

  /** The round of v, if it is selected, then moves w once more. */
  lemma ThirdRound(t: Table, t2: Table, ids: set<Id>, a: Id, w: Id, v: Id, rest: seq<Id>, endAt: Instant) returns (t3: Table)
    requires Selected(t, ids, endAt) && ids <= t.Keys && IsOrdering(rest, ids - {a, w, v})
    requires a in ids && w in ids && v in ids && IsLater(t, a, w) && IsLater(t, w, v) && Shift(t, a, endAt) > 0
    requires RowAt(t, t2, ids, [v] + rest, w, endAt) && t2[w] == Moved(t[w].(endAt := Some(endAt)), Shift(t, a, endAt))
    requires RowAt(t, t2, ids, [v] + rest, v, endAt) && t2[v] == Moved(t[v], Shift(t, w, endAt) + Shift(t, a, endAt))
    ensures ExtendRun(t2, t, [v] + rest, endAt) == ExtendRun(t3, t, rest, endAt)
    ensures w in t3 && t3[w] == Moved(t[w].(endAt := Some(endAt)), Shift(t, a, endAt) + Shift(t, v, endAt))
    ensures v in t3 && t3[v] == t2[v]
  {
    t3 := Round(t, t2, ids, v, rest, w, v, endAt);
  }

  // Of a table that is not safe some order leaves an overlap.

  lemma BrokenBesides(t: Table, ids: set<Id>, a: Id, w: Id, v: Id, endAt: Instant) returns (order: seq<Id>)
    requires Selected(t, ids, endAt) && ids <= t.Keys
    requires a in ids && v in ids && w in t && w !in ids && Live(t[w]) && IsLater(t, a, w) && IsLater(t, w, v)
    requires t[w].startAt < t[w].endAt.value && Shift(t, a, endAt) > 0
    requires t[w].endAt.value + Shift(t, v, endAt) > t[v].startAt && !Leaps(t, ids, w, v, endAt)
    ensures IsOrdering(order, ids)
    ensures var r := ExtendRun(t, t, order, endAt); r.Success? && !Disjoint(r.value)
  {
    var rest := SomeOrdering(ids - {a, w, v});
    order := [a] + ([v] + rest);
    var cur := TwoRounds(t, ids, a, w, v, rest, endAt);
    MovedClash(t, cur, ids, rest, w, v, endAt);
  }

  /** Row `w` selected, moved by `a` and too near to the later `v`. */
  ghost predicate TooNear(t: Table, ids: set<Id>, a: Id, w: Id, v: Id, endAt: Instant) {
    && Selected(t, ids, endAt) && ids <= t.Keys
    && a in ids && w in ids && v in t && IsLater(t, a, w) && IsLater(t, w, v)
    && Shift(t, a, endAt) > 0 && EndsAfter(t[v], t[v].startAt)
    && t[w].endAt.value + Lost(t, w, endAt) + (if v in ids then Shift(t, v, endAt) else 0) > t[v].startAt
  }

  lemma ThirdRoundClash(t: Table, cur: Table, ids: set<Id>, a: Id, w: Id, v: Id, endAt: Instant)
    requires TooNear(t, ids, a, w, v, endAt) && v in ids && w in cur && v in cur
    requires cur[w] == Moved(t[w].(endAt := Some(endAt)), Shift(t, a, endAt) + Shift(t, v, endAt))
    requires cur[v] == Moved(t[v], Shift(t, w, endAt) + Shift(t, a, endAt))
    ensures Clash(cur, w, v) && cur[w].startAt > endAt - SECOND && cur[v].startAt > endAt - SECOND
  {
    ShiftMonotone(endAt - t[v].endAt.value, endAt - t[w].endAt.value);
  }

  lemma BrokenAmong(t: Table, ids: set<Id>, a: Id, w: Id, v: Id, endAt: Instant) returns (order: seq<Id>)
    requires TooNear(t, ids, a, w, v, endAt) && v in ids
    ensures IsOrdering(order, ids)
    ensures var r := ExtendRun(t, t, order, endAt); r.Success? && !Disjoint(r.value)
  {
    var rest := SomeOrdering(ids - {a, w, v});
    order := [w] + ([a] + ([v] + rest));
    var t2 := EditedRounds(t, ids, a, w, v, [v] + rest, endAt);
    var t3 := ThirdRound(t, t2, ids, a, w, v, rest, endAt);
    ThirdRoundClash(t, t3, ids, a, w, v, endAt);
    MovedClash(t, t3, ids, rest, w, v, endAt);
  }

  lemma BrokenBefore(t: Table, ids: set<Id>, a: Id, w: Id, v: Id, endAt: Instant) returns (order: seq<Id>)
    requires TooNear(t, ids, a, w, v, endAt) && v !in ids
    ensures IsOrdering(order, ids)
    ensures var r := ExtendRun(t, t, order, endAt); r.Success? && !Disjoint(r.value)
  {
    var rest := SomeOrdering(ids - {a, w});
    order := [w] + ([a] + rest);
    var t2 := EditedRounds(t, ids, a, w, v, rest, endAt);
    MovedClash(t, t2, ids, rest, w, v, endAt);
  }

  // Nothing before the selected w moves it: then its round comes last.

  /** Some row too near behind `w` has no selected row between that moves it. */
  lemma {:induction false} NearestBehind(t: Table, ids: set<Id>, w: Id, v: Id, endAt: Instant) returns (u: Id)
    requires Selected(t, ids, endAt) && w in ids && v in t && IsLater(t, w, v)
    requires t[w].endAt.value + Lost(t, w, endAt) > t[v].startAt
    ensures u in t && IsLater(t, w, u) && t[w].endAt.value + Lost(t, w, endAt) > t[u].startAt
    ensures forall r :: r in ids && IsLater(t, w, r) ==> !IsLater(t, r, u)
    decreases t[v].startAt - t[w].endAt.value
  {
    if r :| r in ids && IsLater(t, w, r) && IsLater(t, r, v) {
      u := NearestBehind(t, ids, w, r, endAt);
    } else {
      u := v;
    }
  }

  /** Rounds that leave row `w` and the start of the next row `v` where they are. */
  ghost predicate Apart(t: Table, ids: set<Id>, order: seq<Id>, w: Id, v: Id, endAt: Instant) {
    && Selected(t, ids, endAt) && ids <= t.Keys && w in ids && v in t && IsLater(t, w, v) && !HasBefore(t, ids, w, endAt)
    && (forall r :: r in ids && IsLater(t, w, r) ==> !IsLater(t, r, v))
    && (forall r :: r in order ==> r in ids && r != w && Clear(t, w, r))
    && (forall j, k :: 0 <= j < k < |order| ==> order[j] != order[k])
  }

  lemma {:induction false} ApartRun(t: Table, cur: Table, ids: set<Id>, order: seq<Id>, w: Id, v: Id, endAt: Instant)
    requires Apart(t, ids, order, w, v, endAt)
    requires RowAt(t, cur, ids, order, w, endAt) && cur[w] == t[w]
    requires RowAt(t, cur, ids, order, v, endAt) && cur[v].startAt == t[v].startAt
    ensures var r := ExtendRun(cur, t, order, endAt);
            && r.Success?
            && RowAt(t, r.value, ids, [], w, endAt) && r.value[w] == t[w]
            && RowAt(t, r.value, ids, [], v, endAt) && r.value[v].startAt == t[v].startAt
    decreases order
  {
    if order != [] {
      assert order == [order[0]] + order[1..] && order[0] in order;
      var next := Round(t, cur, ids, order[0], order[1..], w, v, endAt);
      ApartRun(t, next, ids, order[1..], w, v, endAt);
    }
  }

  lemma {:induction false} RunThenOne(cur: Table, seen: Table, order: seq<Id>, r: Id, endAt: Instant)
    requires r in seen && forall i :: i in order ==> i in seen
    ensures ExtendRun(cur, seen, order + [r], endAt) ==
            match ExtendRun(cur, seen, order, endAt)
            case Failure(e) => Failure(e)
            case Success(next) => ExtendOne(next, r, seen[r], endAt)
    decreases order
  {
    if order == [] {
      assert order + [r] == [r] && [r][1..] == [];
    } else {
      assert order[0] in order && (order + [r])[1..] == order[1..] + [r];
      if ExtendOne(cur, order[0], seen[order[0]], endAt).Success? {
        RunThenOne(ExtendOne(cur, order[0], seen[order[0]], endAt).value, seen, order[1..], r, endAt);
      }
    }
  }

  lemma BrokenLast(t: Table, ids: set<Id>, w: Id, v: Id, endAt: Instant) returns (order: seq<Id>)
    requires Disjoint(t) && Selected(t, ids, endAt) && ids <= t.Keys
    requires w in ids && v in t && IsLater(t, w, v) && !HasBefore(t, ids, w, endAt)
    requires t[w].endAt.value + Lost(t, w, endAt) > t[v].startAt
    ensures IsOrdering(order, ids)
    ensures var r := ExtendRun(t, t, order, endAt); r.Success? && !Disjoint(r.value)
  {
    var u := NearestBehind(t, ids, w, v, endAt);
    var rest := SomeOrdering(ids - {w});
    order := rest + [w];
    AllClear(t, w);
    AllClear(t, u);
    RowStarts(t, ids, rest, w, endAt);
    RowStarts(t, ids, rest, u, endAt);
    ApartRun(t, t, ids, rest, w, u, endAt);
    RunThenOne(t, t, rest, w, endAt);
    var cur := ExtendRun(t, t, rest, endAt).value;
    LastRound(t, cur, ids, w, u, endAt);
  }

  lemma LastRound(t: Table, cur: Table, ids: set<Id>, w: Id, v: Id, endAt: Instant)
    requires Selected(t, ids, endAt) && w in ids && v in t && IsLater(t, w, v) && EndsAfter(t[v], t[v].startAt)
    requires t[w].endAt.value + Lost(t, w, endAt) > t[v].startAt
    requires RowAt(t, cur, ids, [], w, endAt) && cur[w] == t[w]
    requires RowAt(t, cur, ids, [], v, endAt) && cur[v].startAt == t[v].startAt
    ensures var r := ExtendOne(cur, w, t[w], endAt); r.Success? && !Disjoint(r.value)
  {
    RoundRowStep(t, cur, ids, [w], endAt, w);
    RoundRowStep(t, cur, ids, [w], endAt, v);
    var next := ExtendOne(cur, w, t[w], endAt).value;
    assert Overlap(next[w], next[v]);
  }

  /** Some order breaks a table that is not safe. */
  lemma Broken(t: Table, ids: set<Id>, w: Id, v: Id, endAt: Instant) returns (order: seq<Id>)
    requires Disjoint(t) && Selected(t, ids, endAt) && ids <= t.Keys
    requires w in t && v in t && Live(t[w]) && IsLater(t, w, v) && !Spaced(t, ids, w, v, endAt)
    ensures IsOrdering(order, ids)
    ensures var r := ExtendRun(t, t, order, endAt); r.Success? && !Disjoint(r.value)
  {
    AllClear(t, w);
    AllClear(t, v);
    if HasBefore(t, ids, w, endAt) {
      var a :| a in ids && IsLater(t, a, w) && Shift(t, a, endAt) > 0;
      if w !in ids {
        order := BrokenBesides(t, ids, a, w, v, endAt);
      } else if v in ids {
        order := BrokenAmong(t, ids, a, w, v, endAt);
      } else {
        order := BrokenBefore(t, ids, a, w, v, endAt);
      }
    } else {
      order := BrokenLast(t, ids, w, v, endAt);
    }
  }

  /** The run succeeds and leaves the table disjoint. */
  ghost predicate StaysDisjoint(t: Table, order: seq<Id>, endAt: Instant)
    requires forall i :: i in order ==> i in t
  {
    var r := ExtendRun(t, t, order, endAt);
    r.Success? && Disjoint(r.value)
  }

  /**
   At any instants, extending succeeds and keeps the table disjoint in every order in which
   the rows may come if and only if every key is present and the table is safe, which the
   caller can see before the call.
   */
  lemma ExtendEveryOrder(t: Table, sub: Id, endAt: Instant)
    requires Disjoint(t)
    ensures var ids := ExtendSelection(t, sub, endAt);
            (forall order :: IsOrdering(order, ids) ==> StaysDisjoint(t, order, endAt)) <==>
            Selected(t, ids, endAt) && OrderSafe(t, ids, endAt)
  {
    var ids := ExtendSelection(t, sub, endAt);
    SelectionSelected(t, sub, endAt);
    if !Selected(t, ids, endAt) {
      var order := SomeOrdering(ids);
      RunSucceeds(t, t, order, endAt);
      assert !StaysDisjoint(t, order, endAt);
    } else if OrderSafe(t, ids, endAt) {
      forall order | IsOrdering(order, ids)
        ensures StaysDisjoint(t, order, endAt)
      {
        SafeInOrder(t, ids, order, endAt);
      }
    } else {
      var w, v :| w in t && v in t && Live(t[w]) && IsLater(t, w, v) && !Spaced(t, ids, w, v, endAt);
      var order := Broken(t, ids, w, v, endAt);
      assert !StaysDisjoint(t, order, endAt);
    }
  }

  // ----- reaching the requested end -----

  /** While nothing before it moves others, a selected row is only ever edited. */
  lemma {:induction false} UnmovedRun(t: Table, cur: Table, ids: set<Id>, order: seq<Id>, b: Id, endAt: Instant)
    requires Selected(t, ids, endAt) && ids <= t.Keys && b in ids && !HasBefore(t, ids, b, endAt)
    requires forall r :: r in order ==> r in ids
    requires forall j, k :: 0 <= j < k < |order| ==> order[j] != order[k]
    requires b in cur && cur[b] == if b in order then t[b] else t[b].(endAt := Some(endAt))
    ensures var r := ExtendRun(cur, t, order, endAt);
            r.Success? && b in r.value && r.value[b] == t[b].(endAt := Some(endAt))
    decreases order
  {
    if order != [] {
      var r, rest := order[0], order[1..];
      assert order == [r] + rest && r in order;
      RoundRowStep(t, cur, ids, order, endAt, b);
      UnmovedRun(t, ExtendOne(cur, r, t[r], endAt).value, ids, rest, b, endAt);
    }
  }

  /** A row past the requested end never comes back to it. */
  lemma {:induction false} PastStays(t: Table, cur: Table, ids: set<Id>, order: seq<Id>, b: Id, endAt: Instant)
    requires Selected(t, ids, endAt) && forall r :: r in order ==> r in ids
    requires b in cur && cur[b].endAt.Some? && cur[b].endAt.value > endAt
    ensures var r := ExtendRun(cur, t, order, endAt);
            r.Success? && b in r.value && r.value[b].endAt.Some? && r.value[b].endAt.value > endAt
    decreases order
  {
    if order != [] {
      assert order == [order[0]] + order[1..] && order[0] in order;
      PastStays(t, ExtendOne(cur, order[0], t[order[0]], endAt).value, ids, order[1..], b, endAt);
    }
  }

  /** With `b` first and then `a` before it, `b` ends up past the requested end. */
  lemma PushedPast(t: Table, ids: set<Id>, a: Id, b: Id, endAt: Instant) returns (order: seq<Id>)
    requires Selected(t, ids, endAt) && ids <= t.Keys
    requires a in ids && b in ids && IsLater(t, a, b) && Shift(t, a, endAt) > 0
    ensures IsOrdering(order, ids) && !ReachesEnd(t, ids, order, endAt)
  {
    var rest := SomeOrdering(ids - {a, b});
    order := [b] + ([a] + rest);
    RowStarts(t, ids, order, b, endAt);
    var t1 := Round(t, t, ids, b, [a] + rest, b, b, endAt);
    var t2 := Round(t, t1, ids, a, rest, b, b, endAt);
    PastStays(t, t2, ids, rest, b, endAt);
  }

  /**
   At any instants, extending leaves every selected window ending exactly at `endAt` in
   every order in which the rows may come if and only if every key is present and no
   selected window that is followed by another selected one of its timeline has a second
   or more to go.
   */
  lemma ExtendReachesEnd(t: Table, sub: Id, endAt: Instant)
    requires Disjoint(t)
    ensures var ids := ExtendSelection(t, sub, endAt);
            (forall order :: IsOrdering(order, ids) ==> ReachesEnd(t, ids, order, endAt)) <==>
            Selected(t, ids, endAt) &&
            forall a, b :: a in ids && b in ids && IsLater(t, a, b) ==> endAt - t[a].endAt.value < SECOND
  {
    var ids := ExtendSelection(t, sub, endAt);
    SelectionSelected(t, sub, endAt);
    if !Selected(t, ids, endAt) {
      var order := SomeOrdering(ids);
      RunSucceeds(t, t, order, endAt);
      assert !ReachesEnd(t, ids, order, endAt);
    } else if a, b :| a in ids && b in ids && IsLater(t, a, b) && endAt - t[a].endAt.value >= SECOND {
      var order := PushedPast(t, ids, a, b, endAt);
    } else {
      forall order | IsOrdering(order, ids)
        ensures ReachesEnd(t, ids, order, endAt)
      {
        forall b | b in ids {
          UnmovedRun(t, t, ids, order, b, endAt);
        }
        RunSucceeds(t, t, order, endAt);
      }
    }
  }

  lemma RoundWholeSeconds(cur: Table, r: Id, seen: Entitlement, endAt: Instant)
    requires WholeSecondWindows(cur) && OnSecond(endAt)
    requires ExtendOne(cur, r, seen, endAt).Success?
    ensures WholeSecondWindows(ExtendOne(cur, r, seen, endAt).value)
  {
    var t' := ExtendOne(cur, r, seen, endAt).value;
    forall i | i in t' && Live(t'[i])
      ensures OnSecond(t'[i].startAt) && (t'[i].endAt.Some? ==> OnSecond(t'[i].endAt.value))
    {
      if seen.endAt.Some? {
        OnSecondPlus(cur[i].startAt, endAt - seen.endAt.value);
        if cur[i].endAt.Some? { OnSecondPlus(cur[i].endAt.value, endAt - seen.endAt.value); }
      }
    }
  }

  lemma {:induction false} RunWholeSeconds(t: Table, cur: Table, order: seq<Id>, endAt: Instant)
    requires WholeSecondWindows(cur) && OnSecond(endAt) && forall i :: i in order ==> i in t
    requires ExtendRun(cur, t, order, endAt).Success?
    ensures WholeSecondWindows(ExtendRun(cur, t, order, endAt).value)
    decreases order
  {
    if order != [] {
      RoundWholeSeconds(cur, order[0], t[order[0]], endAt);
      RunWholeSeconds(t, ExtendOne(cur, order[0], t[order[0]], endAt).value, order[1..], endAt);
    }
  }
}
