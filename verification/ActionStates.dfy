/** Cumulative action counters, internal/store/action_states.go:23-108. */
module ActionStates {
  import opened GameTime

  datatype Slot = Slot(player: string, key: int, target: string)

  /** The date column: empty, or a day. ISO dates compare as their days do. */
  datatype ActionDate = Undated | Day(n: int)

  datatype Row = Row(count: nat, updatedAt: int)

  type History = map<ActionDate, Row>

  datatype Total = Total(key: int, target: string, count: int)

  type Rows = map<Slot, History>

  function DateOf(now: int, dated: bool): ActionDate {
    if dated then Day(GameDayStart(now) / DAY) else Undated
  }

  /** Game days are numbered from 1970-01-01 and begin at 06:00 UTC. */
  lemma DateIsTheGameDay(now: int, n: int)
    requires now >= 21600
    ensures DateOf(now, true) == Day(n) <==> n * 86400 + 21600 <= now < (n + 1) * 86400 + 21600
    ensures DateOf(now, false) == Undated
  {
    GameDayContains(now);
    assert GameDayStart(now) / DAY == GameDay(now);
  }

  predicate Earlier(a: ActionDate, b: ActionDate) {
    b.Day? && (a.Undated? || a.n < b.n)
  }

  lemma DatesAreOrdered(a: ActionDate, b: ActionDate)
    ensures a == b || Earlier(a, b) || Earlier(b, a)
  {
    match (a, b)
    case (Undated, Undated) =>
    case (Day(m), Day(n)) => assert m == n ==> a == b;
    case _ =>
  }

  function HistoryOf(rows: Rows, slot: Slot): History {
    if slot in rows then rows[slot] else map[]
  }

  // ---------------------------------------------------------------- the two readings of a history

  /** COALESCE(MAX(count),0). */
  ghost predicate IsMax(h: History, m: int) {
    && m >= 0
    && (forall d :: d in h ==> h[d].count <= m)
    && (m == 0 || exists d :: d in h && h[d].count == m)
  }

  ghost function MaxCount(h: History): (m: int)
    ensures IsMax(h, m)
    decreases |h|
  {
    if h == map[] then 0 else
      var d :| d in h;
      var rest := MaxCount(h - {d});
      MaxOfMore(h, d, rest);
      if rest > h[d].count then rest else h[d].count
  }

  lemma MaxOfMore(h: History, d: ActionDate, rest: int)
    requires d in h && IsMax(h - {d}, rest)
    ensures IsMax(h, if rest > h[d].count then rest else h[d].count)
  {
    forall e | e in h && e != d ensures h[e].count <= rest {
      assert e in h - {d};
    }
    if rest > h[d].count {
      var e :| e in h - {d} && (h - {d})[e].count == rest;
      assert e in h && h[e].count == rest;
    } else {
      assert h[d].count == h[d].count;
    }
  }

  lemma MaxIsUnique(h: History, m: int, n: int)
    requires IsMax(h, m) && IsMax(h, n)
    ensures m == n
  {
  }

  /** The row no other row of the slot is later than. */
  ghost predicate IsLatest(h: History, d: ActionDate) {
    d in h && forall other :: other in h ==> other == d || Earlier(other, d)
  }

  ghost predicate Monotone(h: History) {
    forall a, b :: a in h && b in h && Earlier(a, b) ==> h[a].count <= h[b].count
  }

  ghost predicate NoneAfter(h: History, date: ActionDate) {
    forall d :: d in h ==> !Earlier(date, d)
  }

  lemma {:induction false} SomeLatest(h: History)
    requires h != map[]
    ensures exists d :: IsLatest(h, d)
    decreases |h|
  {
    var d :| d in h;
    var rest := h - {d};
    if rest == map[] {
      assert forall other :: other in h ==> other == d || other in rest;
      assert IsLatest(h, d);
    } else {
      SomeLatest(rest);
      var last :| IsLatest(rest, last);
      DatesAreOrdered(d, last);
      forall other | other in h ensures other == d || other in rest {
      }
      assert IsLatest(h, if Earlier(d, last) then last else d);
    }
  }

  /** The total a reader sees: the count of the latest row, nothing without rows. */
  ghost function LatestTotal(h: History): (total: int)
    ensures forall d :: IsLatest(h, d) ==> total == h[d].count
  {
    if h == map[] then 0 else
      SomeLatest(h);
      var d :| IsLatest(h, d);
      h[d].count
  }

  /** In a history that never falls the total a reader sees is the maximum. */
  lemma LatestIsMax(h: History)
    requires Monotone(h)
    ensures LatestTotal(h) == MaxCount(h)
  {
    if h == map[] {
      MaxIsUnique(h, 0, MaxCount(h));
    } else {
      SomeLatest(h);
      var d :| IsLatest(h, d);
      assert IsMax(h, h[d].count);
      MaxIsUnique(h, h[d].count, MaxCount(h));
    }
  }

  // ---------------------------------------------------------------- transactions as functions

  ghost function AddedTo(h: History, date: ActionDate, count: nat, now: int): History {
    h[date := Row((if date in h then h[date].count else MaxCount(h)) + count, now)]
  }

  ghost function Added(rows: Rows, slot: Slot, count: int, dated: bool, now: int): Rows {
    if slot.key <= 0 || count <= 0 then rows
    else rows[slot := AddedTo(HistoryOf(rows, slot), DateOf(now, dated), count, now)]
  }

  ghost function ProjectedOne(rows: Rows, player: string, total: Total, now: int): Rows {
    var slot := Slot(player, total.key, total.target);
    if total.key <= 0 || total.count <= 0 || total.count <= MaxCount(HistoryOf(rows, slot)) then rows
    else rows[slot := HistoryOf(rows, slot)[DateOf(now, true) := Row(total.count, now)]]
  }

  ghost function Projected(rows: Rows, player: string, totals: seq<Total>, now: int): Rows {
    if totals == [] then rows
    else ProjectedOne(Projected(rows, player, totals[..|totals| - 1], now), player, totals[|totals| - 1], now)
  }

  class Store {
    var rows: Rows

    constructor ()
      ensures rows == map[]
    {
      rows := map[];
    }

    method Maximum(h: History) returns (m: nat)
      ensures m == MaxCount(h)
    {
      m := 0;
      var pending := h.Keys;
      while pending != {}
        invariant pending <= h.Keys
        invariant forall d :: d in h.Keys - pending ==> h[d].count <= m
        invariant m == 0 || exists d :: d in h.Keys - pending && h[d].count == m
        decreases pending
      {
        var d :| d in pending;
        pending := pending - {d};
        if h[d].count > m {
          m := h[d].count;
        }
      }
      MaxIsUnique(h, m, MaxCount(h));
    }

    method AddAction(slot: Slot, count: int, dated: bool, now: int)
      modifies this
      ensures rows == Added(old(rows), slot, count, dated, now)
    {
      if slot.key <= 0 || count <= 0 {
        return;
      }
      var date := DateOf(now, dated);
      var history := HistoryOf(rows, slot);
      var today;
      if date in history {
        today := history[date].count + count;
      } else {
        var historical := Maximum(history);
        today := historical + count;
      }
      rows := rows[slot := history[date := Row(today, now)]];
    }

    method ProjectActionTotals(player: string, totals: seq<Total>, now: int)
      modifies this
      ensures rows == Projected(old(rows), player, totals, now)
    {
      if totals == [] {
        return;
      }
      var tx := rows;
      var date := DateOf(now, true);
      for i := 0 to |totals|
        invariant tx == Projected(rows, player, totals[..i], now) && rows == old(rows)
      {
        assert totals[..i + 1][..i] == totals[..i];
        var total := totals[i];
        if total.key <= 0 || total.count <= 0 {
          continue;
        }
        var slot := Slot(player, total.key, total.target);
        var latest := Maximum(HistoryOf(tx, slot));
        if total.count <= latest {
          continue;
        }
        tx := tx[slot := HistoryOf(tx, slot)[date := Row(total.count, now)]];
      }
      assert totals[..|totals|] == totals;
      rows := tx;
    }

    method LatestActionTotals(player: string) returns (totals: map<(int, string), nat>)
      ensures forall key, target :: (key, target) in totals <==> HistoryOf(rows, Slot(player, key, target)) != map[]
      ensures forall key, target :: (key, target) in totals ==>
                totals[(key, target)] == LatestTotal(HistoryOf(rows, Slot(player, key, target)))
    {
      totals := map[];
      var pending := rows.Keys;
      while pending != {}
        invariant pending <= rows.Keys
        invariant forall key, target :: (key, target) in totals <==>
                    HistoryOf(rows, Slot(player, key, target)) != map[] && Slot(player, key, target) !in pending
        invariant forall key, target :: (key, target) in totals ==>
                    totals[(key, target)] == LatestTotal(HistoryOf(rows, Slot(player, key, target)))
        decreases pending
      {
        var slot :| slot in pending;
        pending := pending - {slot};
        if slot.player == player && rows[slot] != map[] {
          var date := LatestDate(rows[slot]);
          totals := totals[(slot.key, slot.target) := rows[slot][date].count];
        }
      }
    }

    method LatestDate(h: History) returns (date: ActionDate)
      requires h != map[]
      ensures IsLatest(h, date) && forall d :: IsLatest(h, d) ==> d == date
    {
      date :| date in h;
      var pending := h.Keys - {date};
      while pending != {}
        invariant pending <= h.Keys && date in h.Keys - pending
        invariant forall d :: d in h.Keys - pending ==> d == date || Earlier(d, date)
        decreases pending
      {
        var d :| d in pending;
        pending := pending - {d};
        DatesAreOrdered(date, d);
        ghost var previous := date;
        if Earlier(date, d) {
          date := d;
        }
        forall e | e in h.Keys - pending ensures e == date || Earlier(e, date) {
          assert e == d || e == previous || Earlier(e, previous);
        }
      }
    }
  }

  // ---------------------------------------------------------------- one add, exactly

  /** The total after an addition: with a later row it stays; otherwise it continues the row of the date, or on a
      fresh date the maximum over all rows, which includes the undated one. */
  lemma NextTotal(h: History, date: ActionDate, count: nat, now: int)
    requires count > 0
    ensures LatestTotal(AddedTo(h, date, count, now)) ==
            if NoneAfter(h, date) then (if date in h then h[date].count else MaxCount(h)) + count else LatestTotal(h)
  {
    hide MaxCount;
    var next := AddedTo(h, date, count, now);
    if NoneAfter(h, date) {
      forall other | other in next ensures other == date || Earlier(other, date) {
        DatesAreOrdered(other, date);
      }
      assert IsLatest(next, date);
    } else {
      SomeLatest(h);
      var last :| IsLatest(h, last);
      var later :| later in h && Earlier(date, later);
      assert later == last || Earlier(later, last);
      assert IsLatest(next, last);
    }
  }

  /** Adding on a date raises the total a reader sees by exactly the count if and only if no row is later. */
  lemma AddIsExactWhenCurrent(h: History, date: ActionDate, count: nat, now: int)
    requires Monotone(h) && count > 0
    ensures LatestTotal(AddedTo(h, date, count, now)) == LatestTotal(h) + count <==> NoneAfter(h, date)
  {
    hide MaxCount, LatestTotal;
    LatestIsMax(h);
    NextTotal(h, date, count, now);
    if NoneAfter(h, date) && date in h {
      forall other | other in h && other != date ensures Earlier(other, date) {
        DatesAreOrdered(other, date);
      }
      assert IsLatest(h, date);
    }
  }

  /** An addition writes the row of its date, with the time, and no other; one without a positive key and count writes
      nothing. */
  lemma AddWrites(rows: Rows, slot: Slot, count: int, dated: bool, now: int)
    ensures var next, date := Added(rows, slot, count, dated, now), DateOf(now, dated);
      if slot.key <= 0 || count <= 0 then next == rows else
        && (forall other :: other != slot ==> HistoryOf(next, other) == HistoryOf(rows, other))
        && var h, after := HistoryOf(rows, slot), HistoryOf(next, slot);
        && after.Keys == h.Keys + {date}
        && (forall d :: d in h && d != date ==> after[d] == h[d])
        && after[date].updatedAt == now
        && (date in h ==> after[date].count == h[date].count + count)
        && (date !in h ==>
              && (forall d :: d in h ==> after[date].count >= h[d].count + count)
              && (after[date].count == count || exists d :: d in h && after[date].count == h[d].count + count))
  {
    hide MaxCount;
    if slot.key > 0 && count > 0 {
      assert IsMax(HistoryOf(rows, slot), MaxCount(HistoryOf(rows, slot)));
    }
  }

  /** One projected total writes the row of today if and only if it is positive and above every row of its counter. */
  lemma ProjectWrites(rows: Rows, player: string, total: Total, now: int)
    ensures var next, slot := Projected(rows, player, [total], now), Slot(player, total.key, total.target);
      next == if total.key > 0 && total.count > 0
                 && (forall d :: d in HistoryOf(rows, slot) ==> total.count > HistoryOf(rows, slot)[d].count)
              then rows[slot := HistoryOf(rows, slot)[DateOf(now, true) := Row(total.count, now)]] else rows
  {
    hide MaxCount;
    var h := HistoryOf(rows, Slot(player, total.key, total.target));
    assert IsMax(h, MaxCount(h));
    assert [total][..0] == [];
    assert Projected(rows, player, [total][..0], now) == rows;
  }

  /** Projecting several totals is projecting them one after the other. */
  lemma {:induction false} ProjectInTurn(rows: Rows, player: string, first: seq<Total>, second: seq<Total>, now: int)
    ensures Projected(rows, player, first + second, now)
            == Projected(Projected(rows, player, first, now), player, second, now)
    decreases |second|
  {
    hide ProjectedOne;
    if second == [] {
      assert first + second == first;
    } else {
      var front := second[..|second| - 1];
      assert (first + second)[..|first + second| - 1] == first + front;
      ProjectInTurn(rows, player, first, front, now);
    }
  }

  // ---------------------------------------------------------------- refinement of a plain counter

  datatype Op =
    | Add(slot: Slot, count: int, now: int)
    | Project(player: string, totals: seq<Total>, now: int)

  ghost function Step(rows: Rows, op: Op): Rows {
    match op
    case Add(slot, count, now) => Added(rows, slot, count, true, now)
    case Project(player, totals, now) => Projected(rows, player, totals, now)
  }

  ghost function Run(rows: Rows, ops: seq<Op>): Rows
    decreases |ops|
  {
    if ops == [] then rows else Run(Step(rows, ops[0]), ops[1..])
  }

  function Raise(counter: int, totals: seq<Total>, slot: Slot): int {
    if totals == [] then counter else
      var rest := Raise(counter, totals[..|totals| - 1], slot);
      var last := totals[|totals| - 1];
      var same := last.key == slot.key && last.target == slot.target;
      if same && last.key > 0 && last.count > rest then last.count else rest
  }

  /** What the counter of one slot should do: one number that adds, and never falls. */
  function Count(counter: int, op: Op, slot: Slot): int {
    match op
    case Add(s, count, _) => if s == slot && s.key > 0 && count > 0 then counter + count else counter
    case Project(player, totals, _) => if player == slot.player then Raise(counter, totals, slot) else counter
  }

  function Counts(counter: int, ops: seq<Op>, slot: Slot): int
    decreases |ops|
  {
    if ops == [] then counter else Counts(Count(counter, ops[0], slot), ops[1..], slot)
  }

  ghost predicate Current(rows: Rows, now: int) {
    forall slot :: slot in rows ==> Monotone(rows[slot]) && NoneAfter(rows[slot], DateOf(now, true))
  }

  predicate ClockRuns(ops: seq<Op>, now: int)
    decreases |ops|
  {
    ops == [] || (now <= ops[0].now && ClockRuns(ops[1..], ops[0].now))
  }

  lemma WriteToday(h: History, date: ActionDate, value: nat, now: int)
    requires Monotone(h) && NoneAfter(h, date) && value >= MaxCount(h) && date.Day?
    ensures var next := h[date := Row(value, now)];
      Monotone(next) && NoneAfter(next, date) && MaxCount(next) == value && IsLatest(next, date)
  {
    var next := h[date := Row(value, now)];
    assert date in next && next[date].count == value;
    assert IsMax(next, value);
    MaxIsUnique(next, value, MaxCount(next));
  }

  lemma EmptyIsCurrent(date: ActionDate)
    ensures Monotone(map[]) && NoneAfter(map[], date)
  {
  }

  lemma TodayIsLatest(h: History, date: ActionDate)
    requires Monotone(h) && NoneAfter(h, date) && date in h
    ensures IsLatest(h, date) && h[date].count == MaxCount(h)
  {
    hide MaxCount;
    forall other | other in h && other != date ensures Earlier(other, date) {
      DatesAreOrdered(other, date);
    }
    LatestIsMax(h);
  }

  lemma Dated(now: int)
    ensures DateOf(now, true).Day?
  {
  }

  lemma LaterClock(rows: Rows, now: int, later: int)
    requires Current(rows, now) && now <= later
    ensures Current(rows, later)
  {
    GameDaysGrow(now, later);
  }

  lemma CurrentAfterWrite(rows: Rows, slot: Slot, h: History, now: int)
    requires Current(rows, now) && Monotone(h) && NoneAfter(h, DateOf(now, true))
    ensures Current(rows[slot := h], now)
    ensures forall other :: HistoryOf(rows[slot := h], other) == if other == slot then h else HistoryOf(rows, other)
  {
    hide Monotone, NoneAfter;
    var next := rows[slot := h];
    forall other | other in next ensures Monotone(next[other]) && NoneAfter(next[other], DateOf(now, true)) {
      assert other != slot ==> other in rows && next[other] == rows[other];
    }
    forall other ensures HistoryOf(next, other) == if other == slot then h else HistoryOf(rows, other) {
    }
  }

  lemma AddRefines(rows: Rows, op: Op)
    requires op.Add? && Current(rows, op.now)
    ensures Current(Step(rows, op), op.now)
    ensures forall slot :: MaxCount(HistoryOf(Step(rows, op), slot)) == Count(MaxCount(HistoryOf(rows, slot)), op, slot)
  {
    hide MaxCount, DateOf, Monotone, NoneAfter;
    if op.slot.key > 0 && op.count > 0 {
      assert DateOf(op.now, true).Day? by { Dated(op.now); }
      assert MaxCount(map[]) == 0 by { MaxIsUnique(map[], 0, MaxCount(map[])); }
      var h, date := HistoryOf(rows, op.slot), DateOf(op.now, true);
      assert Monotone(h) && NoneAfter(h, date) by { EmptyIsCurrent(date); }
      if date in h {
        TodayIsLatest(h, date);
      }
      WriteToday(h, date, MaxCount(h) + op.count, op.now);
      CurrentAfterWrite(rows, op.slot, AddedTo(h, date, op.count, op.now), op.now);
    }
  }

  lemma {:induction false} ProjectRefines(rows: Rows, player: string, totals: seq<Total>, now: int)
    requires Current(rows, now)
    ensures Current(Projected(rows, player, totals, now), now)
    ensures forall slot :: MaxCount(HistoryOf(Projected(rows, player, totals, now), slot)) ==
                           Count(MaxCount(HistoryOf(rows, slot)), Project(player, totals, now), slot)
    decreases |totals|
  {
    hide MaxCount, DateOf, Monotone, NoneAfter;
    if totals != [] {
      Dated(now);
      assert MaxCount(map[]) == 0 by { MaxIsUnique(map[], 0, MaxCount(map[])); }
      var last := totals[|totals| - 1];
      var mid := Projected(rows, player, totals[..|totals| - 1], now);
      ProjectRefines(rows, player, totals[..|totals| - 1], now);
      var slot := Slot(player, last.key, last.target);
      if last.key > 0 && last.count > MaxCount(HistoryOf(mid, slot)) {
        EmptyIsCurrent(DateOf(now, true));
        WriteToday(HistoryOf(mid, slot), DateOf(now, true), last.count, now);
        CurrentAfterWrite(mid, slot, HistoryOf(mid, slot)[DateOf(now, true) := Row(last.count, now)], now);
      }
    }
  }

  /** Over any run of dated operations with a clock that never goes back, the dated rows behave as one plain
      counter per slot that never falls, and the latest row is where that counter is read. */
  lemma {:induction false} RowsRefineCounters(rows: Rows, ops: seq<Op>, now: int, slot: Slot)
    requires Current(rows, now) && ClockRuns(ops, now)
    ensures MaxCount(HistoryOf(Run(rows, ops), slot)) == Counts(MaxCount(HistoryOf(rows, slot)), ops, slot)
    ensures Monotone(HistoryOf(Run(rows, ops), slot))
    ensures MaxCount(HistoryOf(Run(rows, ops), slot)) >= MaxCount(HistoryOf(rows, slot))
    ensures LatestTotal(HistoryOf(Run(rows, ops), slot)) == Counts(MaxCount(HistoryOf(rows, slot)), ops, slot)
    decreases |ops|
  {
    CountersNeverFall(MaxCount(HistoryOf(rows, slot)), ops, slot);
    if ops == [] {
      LatestIsMax(HistoryOf(rows, slot));
    } else {
      var op := ops[0];
      LaterClock(rows, now, op.now);
      if op.Add? {
        AddRefines(rows, op);
      } else {
        ProjectRefines(rows, op.player, op.totals, op.now);
      }
      RowsRefineCounters(Step(rows, op), ops[1..], op.now, slot);
    }
  }

  lemma {:induction false} CountersNeverFall(counter: int, ops: seq<Op>, slot: Slot)
    ensures Counts(counter, ops, slot) >= counter
    decreases |ops|
  {
    if ops != [] {
      if ops[0].Project? {
        RaiseNeverFalls(counter, ops[0].totals, slot);
      }
      CountersNeverFall(Count(counter, ops[0], slot), ops[1..], slot);
    }
  }

  lemma {:induction false} RaiseNeverFalls(counter: int, totals: seq<Total>, slot: Slot)
    ensures Raise(counter, totals, slot) >= counter
  {
    if totals != [] {
      RaiseNeverFalls(counter, totals[..|totals| - 1], slot);
    }
  }

  // ---------------------------------------------------------------- undated additions

  ghost predicate HasDatedRow(h: History) {
    exists d :: d in h && d.Day?
  }

  /** An undated addition leaves the latest total as it was if and only if the counter has a dated row. */
  lemma UndatedAddIsHidden(h: History, count: nat, now: int)
    requires count > 0
    ensures LatestTotal(AddedTo(h, Undated, count, now)) == LatestTotal(h) <==> HasDatedRow(h)
  {
    hide MaxCount;
    NextTotal(h, Undated, count, now);
    if !HasDatedRow(h) {
      assert forall d :: d in h ==> d == Undated;
      if h != map[] {
        assert IsLatest(h, Undated);
      }
    }
  }

  lemma MaxAfterWrite(h: History, d: ActionDate, value: nat, now: int)
    requires d in h ==> h[d].count <= value
    ensures MaxCount(h[d := Row(value, now)]) == if value > MaxCount(h) then value else MaxCount(h)
  {
    var next := h[d := Row(value, now)];
    var m := if value > MaxCount(h) then value else MaxCount(h);
    assert d in next && next[d].count == value;
    if m > value {
      var e :| e in h && h[e].count == m;
      assert e in next && next[e].count == m;
    }
    assert IsMax(next, m);
    MaxIsUnique(next, m, MaxCount(next));
  }

  /** How much an undated addition of `hidden` moves the total that the next dated addition shows: nothing on a
      date that has a row; on a fresh date as far as it lifts the maximum, in full without an earlier undated row. */
  lemma UndatedAddShowsOnAFreshDate(h: History, hidden: nat, date: ActionDate, count: nat, earlier: int, now: int)
    requires hidden > 0 && count > 0 && date.Day? && NoneAfter(h, date)
    ensures var shown := LatestTotal(AddedTo(AddedTo(h, Undated, hidden, earlier), date, count, now))
                         - LatestTotal(AddedTo(h, date, count, now));
      shown == if date in h then 0
               else if Undated !in h then hidden
               else if h[Undated].count + hidden > MaxCount(h) then h[Undated].count + hidden - MaxCount(h)
               else 0
  {
    hide MaxCount, LatestTotal;
    var next := AddedTo(h, Undated, hidden, earlier);
    assert NoneAfter(next, date);
    NextTotal(h, date, count, now);
    NextTotal(next, date, count, now);
    MaxAfterWrite(h, Undated, (if Undated in h then h[Undated].count else MaxCount(h)) + hidden, earlier);
  }

  /** An undated addition keeps a monotone history monotone if and only if its own row stays below every dated
      one; a first undated row does so only without dated rows. */
  lemma UndatedAddBreaksOrder(h: History, count: nat, now: int)
    requires Monotone(h) && count > 0
    ensures var next := AddedTo(h, Undated, count, now);
      && (Monotone(next) <==> forall d :: d in h && d.Day? ==> next[Undated].count <= h[d].count)
      && (Undated !in h ==> (Monotone(next) <==> !HasDatedRow(h)))
  {
    hide MaxCount;
    var next := AddedTo(h, Undated, count, now);
    forall d | d in h && d.Day? ensures d in next && next[d] == h[d] && Earlier(Undated, d) {
    }
    assert IsMax(h, MaxCount(h));
  }
}
