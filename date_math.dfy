/**
 * `splitIntoPeriods(from, to, periodicity)`: the buckets a projection is
 * reported in.  A cursor starts at `from`; while it is on or before `to`,
 * the loop emits the period from the cursor to the end of the cursor's
 * day, week, month, quarter or year (clipped to `to`) and moves the cursor.
 *
 * The cursor move is modelled as written: for Quarterly and Annual it is
 * `setDate(lastDay + 1)` applied in the cursor's own month, which is not
 * the day after the period.  `SplitContiguous` is the walk that moves to
 * the day after each period, as the Daily, Weekly and Monthly cases do.
 */
module DateMath {
  import opened Calendar

  /** The five periodicities the loop knows; `Unrecognised` is any other string. */
  datatype Periodicity = Daily | Weekly | Monthly | Quarterly | Annual | Unrecognised

  /** The periodicities whose cursor always moves forward. */
  predicate Terminates(p: Periodicity) {
    p != Quarterly && p != Unrecognised
  }

  /** The periodicities whose cursor moves to the day after the period's end. */
  predicate MovesToNextDay(p: Periodicity) {
    p == Daily || p == Weekly || p == Monthly
  }

  datatype Period = Period(start: Date, end: Date)

  /** The periods emitted, and whether the loop reached a state it never leaves. */
  datatype Split = Split(periods: seq<Period>, hangs: bool)

  predicate ValidPeriod(q: Period) {
    Valid(q.start) && Valid(q.end)
  }

  /**
   * The unclipped end of the period that starts at `cur`: the same day, the
   * next Saturday (`getDay() == 6`), the last day of the month, of the
   * quarter, or of the year.
   */
  function PeriodEnd(p: Periodicity, cur: Date): (e: Date)
    requires Valid(cur) && p != Unrecognised
    ensures Valid(e)
    ensures (p.Monthly? || p.Quarterly? || p.Annual?) ==> e.year == cur.year && e.day == DaysInMonth(e.year, e.month)
  {
    match p
    case Daily => cur
    case Weekly => AddDays(cur, 6 - Weekday(cur))
    case Monthly => LastOfMonth(cur.year, cur.month)
    case Quarterly => LastOfMonth(cur.year, QuarterLastMonth(cur.month))
    case Annual => LastOfMonth(cur.year, 12)
  }

  /**
   * The period's end is not before its start; a week ends on the first
   * Saturday on or after the cursor.
   */
  lemma PeriodEndSpec(p: Periodicity, cur: Date)
    requires Valid(cur) && p != Unrecognised
    ensures OnOrBefore(cur, PeriodEnd(p, cur))
    ensures p == Weekly ==>
      Weekday(PeriodEnd(p, cur)) == 6 && DayNumber(PeriodEnd(p, cur)) < DayNumber(cur) + 7
  {
    if p == Weekly {
      AddDaysShift(cur, 6 - Weekday(cur));
      OrderByDayNumber(cur, PeriodEnd(p, cur));
    }
  }

  /** `d > end ? end : d`: the earlier of the two dates. */
  function Clip(e: Date, to: Date): (r: Date)
    requires Valid(e) && Valid(to)
    ensures Valid(r) && (r == e || r == to)
    ensures OnOrBefore(r, e) && OnOrBefore(r, to)
  {
    if OnOrBefore(e, to) then e else to
  }

  /** What one iteration pushes: nothing for an unrecognised periodicity. */
  function Emitted(p: Periodicity, cur: Date, to: Date): (ps: seq<Period>)
    requires Valid(cur) && Valid(to)
    ensures |ps| == (if p == Unrecognised then 0 else 1)
  {
    if p == Unrecognised then [] else [Period(cur, Clip(PeriodEnd(p, cur), to))]
  }

  /**
   * The cursor after one iteration, as the loop computes it: one day on
   * (Daily), the day after the Saturday (Weekly), and for the other kinds
   * `setDate(e.getDate() + 1)` on the cursor's own month, where `e` is the
   * period's unclipped end.  An unrecognised periodicity leaves it in place.
   */
  function Advance(p: Periodicity, cur: Date): (n: Date)
    requires Valid(cur)
    ensures Valid(n)
  {
    match p
    case Daily => AddDays(cur, 1)
    case Weekly => AddDays(cur, 6 - Weekday(cur) + 1)
    case Unrecognised => cur
    case _ => SetDate(cur.year, cur.month, PeriodEnd(p, cur).day + 1)
  }

  /**
   * The cursor never moves back, and it moves for every periodicity but
   * Quarterly and an unrecognised one.
   */
  lemma AdvanceSpec(p: Periodicity, cur: Date)
    requires Valid(cur)
    ensures OnOrBefore(cur, Advance(p, cur))
    ensures Terminates(p) ==> Advance(p, cur) != cur
  {
    OrderByDayNumber(cur, Advance(p, cur));
    match p
    case Daily => AddDaysShift(cur, 1);
    case Weekly => AddDaysShift(cur, 6 - Weekday(cur) + 1);
    case Unrecognised =>
    case _ => AdvanceByDay(p, cur);
  }

  /**
   * For Monthly, Quarterly and Annual the cursor lands `e.day` days after
   * the first of its own month, `e` being the period's unclipped end.
   */
  lemma AdvanceByDay(p: Periodicity, cur: Date)
    requires Valid(cur) && (p.Monthly? || p.Quarterly? || p.Annual?)
    ensures DayNumber(Advance(p, cur)) == DayNumber(cur) - cur.day + 1 + PeriodEnd(p, cur).day
  {
    SetDateDayNumber(cur.year, cur.month, PeriodEnd(p, cur).day + 1);
  }

  /**
   * The loop as a recursive walk from cursor `cur`.  When the cursor does
   * not move, every later iteration repeats the same one and the loop never
   * ends: the walk stops there with `hangs`, after one copy of the period
   * that would be pushed forever.
   */
  function Walk(p: Periodicity, cur: Date, to: Date): Split
    requires Valid(cur) && Valid(to)
    decreases (to.year - cur.year), 12 - cur.month, 31 - cur.day
  {
    if !OnOrBefore(cur, to) then Split([], false)
    else
      var next := Advance(p, cur);
      if next == cur then Split(Emitted(p, cur, to), true)
      else
        AdvanceSpec(p, cur);
        var rest := Walk(p, next, to);
        Split(Emitted(p, cur, to) + rest.periods, rest.hangs)
  }

  /**
   * `splitIntoPeriods(from, to, periodicity)`: the periods the loop pushes,
   * and whether it runs forever instead of returning them.
   */
  method SplitIntoPeriods(from: Date, to: Date, p: Periodicity) returns (periods: seq<Period>, hangs: bool)
    requires Valid(from) && Valid(to)
    ensures Split(periods, hangs) == Walk(p, from, to)
  {
    periods, hangs := [], false;
    var cur := from;
    while OnOrBefore(cur, to)
      invariant Valid(cur) && !hangs
      invariant Walk(p, from, to) == Split(periods + Walk(p, cur, to).periods, Walk(p, cur, to).hangs)
      decreases (to.year - cur.year), 12 - cur.month, 31 - cur.day
    {
      var next;
      periods, next := Iteration(p, cur, to, periods);
      if next == cur {
        // The state no longer changes: the source repeats this iteration forever.
        hangs := true;
        break;
      }
      cur := next;
    }
  }

  /**
   * One pass of the loop body: push the period that starts at the cursor
   * (the `switch` on the periodicity) and move the cursor.  What is left of
   * the walk after it, appended to the periods pushed so far, is what was
   * left before it.
   */
  method Iteration(p: Periodicity, cur: Date, to: Date, done: seq<Period>) returns (periods: seq<Period>, next: Date)
    requires Valid(cur) && Valid(to) && OnOrBefore(cur, to)
    ensures Valid(next) && OnOrBefore(cur, next)
    ensures var w := Walk(p, cur, to);
      next == cur ==> Split(done + w.periods, w.hangs) == Split(periods, true)
    ensures var w, w' := Walk(p, cur, to), Walk(p, next, to);
      next != cur ==> Split(done + w.periods, w.hangs) == Split(periods + w'.periods, w'.hangs)
  {
    periods := done + Emitted(p, cur, to);
    next := Advance(p, cur);
    AdvanceSpec(p, cur);
    if next != cur {
      var w' := Walk(p, next, to);
      assert done + (Emitted(p, cur, to) + w'.periods) == periods + w'.periods;
    }
  }

  /**
   * What the walk promises: every period lies in `from..to`; nothing is
   * emitted for an empty range; only Quarterly and an unrecognised
   * periodicity can run forever; Daily, Weekly and Monthly tile the range.
   */
  lemma WalkFacts(p: Periodicity, from: Date, to: Date)
    requires Valid(from) && Valid(to)
    ensures Within(Walk(p, from, to).periods, from, to)
    ensures !OnOrBefore(from, to) ==> Walk(p, from, to) == Split([], false)
    ensures Terminates(p) ==> !Walk(p, from, to).hangs
    ensures MovesToNextDay(p) && OnOrBefore(from, to) ==> Tiles(Walk(p, from, to).periods, from, to)
  {
    WalkWithin(p, from, to);
    WalkHalts(p, from, to);
    if MovesToNextDay(p) && OnOrBefore(from, to) {
      WalkAsIntended(p, from, to);
      ContiguousTiles(p, from, to);
    }
  }

  /** `q` is made of valid dates with `lo <= start <= end <= to`. */
  predicate InRange(q: Period, lo: Date, to: Date) {
    ValidPeriod(q) && OnOrBefore(lo, q.start) && OnOrBefore(q.start, q.end) && OnOrBefore(q.end, to)
  }

  predicate Within(ps: seq<Period>, lo: Date, to: Date) {
    forall i :: 0 <= i < |ps| ==> InRange(ps[i], lo, to)
  }

  /** `b` is the day after `a`. */
  predicate DayAfter(a: Date, b: Date) {
    Valid(a) && b == AddDays(a, 1)
  }

  /**
   * The periods cover `from..to` without gap or overlap: the first starts on
   * `from`, each next one starts the day after the previous ends, and the
   * last ends on `to`.
   */
  predicate Tiles(ps: seq<Period>, from: Date, to: Date) {
    |ps| > 0 && Within(ps, from, to) &&
    ps[0].start == from && ps[|ps| - 1].end == to &&
    forall i :: 0 <= i < |ps| - 1 ==> DayAfter(ps[i].end, ps[i + 1].start)
  }

  /** The period emitted at a cursor on or before `to` lies in `cur..to`. */
  lemma EmittedInRange(p: Periodicity, cur: Date, to: Date)
    requires Valid(cur) && Valid(to) && p != Unrecognised && OnOrBefore(cur, to)
    ensures Emitted(p, cur, to) == [Period(cur, Clip(PeriodEnd(p, cur), to))]
    ensures InRange(Period(cur, Clip(PeriodEnd(p, cur), to)), cur, to)
  {
    PeriodEndSpec(p, cur);
  }

  lemma WithinCons(q: Period, rest: seq<Period>, lo: Date, lo': Date, to: Date)
    requires OnOrBefore(lo, lo') && InRange(q, lo, to) && Within(rest, lo', to)
    ensures Within([q] + rest, lo, to)
  {
    var ps := [q] + rest;
    forall i | 0 <= i < |ps| ensures InRange(ps[i], lo, to) {
      if i > 0 {
        assert ps[i] == rest[i - 1];
      }
    }
  }

  lemma {:induction false} WalkWithin(p: Periodicity, cur: Date, to: Date)
    requires Valid(cur) && Valid(to)
    ensures Within(Walk(p, cur, to).periods, cur, to)
    decreases (to.year - cur.year), 12 - cur.month, 31 - cur.day
  {
    if OnOrBefore(cur, to) && p != Unrecognised {
      var next := Advance(p, cur);
      EmittedInRange(p, cur, to);
      AdvanceSpec(p, cur);
      if next != cur {
        WalkWithin(p, next, to);
        WithinCons(Period(cur, Clip(PeriodEnd(p, cur), to)), Walk(p, next, to).periods, cur, next, to);
      }
    }
  }

  /**
   * Only Quarterly and an unrecognised periodicity can hang.  A Quarterly
   * walk hangs exactly on a cursor at 31 May, 31 July or 31 August, the
   * start of its last period; an unrecognised one hangs, emitting nothing,
   * whenever `from <= to`.
   */
  lemma WalkHalts(p: Periodicity, cur: Date, to: Date)
    requires Valid(cur) && Valid(to)
    ensures Walk(p, cur, to).hangs ==> !Terminates(p)
    ensures var s := Walk(p, cur, to);
      p == Quarterly && s.hangs ==> |s.periods| > 0 && QuarterlyFixedPoint(s.periods[|s.periods| - 1].start)
    ensures p == Unrecognised ==> Walk(p, cur, to) == Split([], OnOrBefore(cur, to))
  {
    var s := Walk(p, cur, to);
    if s.hangs && p != Unrecognised {
      WalkHangsWhereStuck(p, cur, to);
      var last := s.periods[|s.periods| - 1].start;
      AdvanceSpec(p, last);
      if p == Quarterly {
        QuarterlyStuck(last);
      }
    }
  }

  /**
   * A walk of a recognised periodicity hangs only at the start of its last
   * period, a cursor that `Advance` does not move.
   */
  lemma {:induction false} WalkHangsWhereStuck(p: Periodicity, cur: Date, to: Date)
    requires Valid(cur) && Valid(to) && p != Unrecognised
    ensures var s := Walk(p, cur, to);
      s.hangs ==>
        (|s.periods| > 0 && Valid(s.periods[|s.periods| - 1].start) &&
         Advance(p, s.periods[|s.periods| - 1].start) == s.periods[|s.periods| - 1].start)
    decreases (to.year - cur.year), 12 - cur.month, 31 - cur.day
  {
    if OnOrBefore(cur, to) {
      var next := Advance(p, cur);
      var q := Period(cur, Clip(PeriodEnd(p, cur), to));
      WalkUnfold(p, cur, to);
      AdvanceSpec(p, cur);
      if next != cur {
        WalkHangsWhereStuck(p, next, to);
        LastOfCons(q, Walk(p, next, to).periods);
      }
    }
  }

  /** One iteration of the walk, for a recognised periodicity and a cursor not past `to`. */
  lemma WalkUnfold(p: Periodicity, cur: Date, to: Date)
    requires Valid(cur) && Valid(to) && p != Unrecognised && OnOrBefore(cur, to)
    ensures var next, q := Advance(p, cur), Period(cur, Clip(PeriodEnd(p, cur), to));
      Walk(p, cur, to) ==
        if next == cur then Split([q], true)
        else Split([q] + Walk(p, next, to).periods, Walk(p, next, to).hangs)
  {
  }

  lemma LastOfCons(q: Period, rest: seq<Period>)
    ensures rest != [] ==> ([q] + rest)[|rest|] == rest[|rest| - 1]
  {
  }

  /** The dates the Quarterly cursor never leaves. */
  predicate QuarterlyFixedPoint(d: Date) {
    d.day == 31 && (d.month == 5 || d.month == 7 || d.month == 8)
  }

  /**
   * The Quarterly cursor stays put exactly at 31 May, 31 July and 31 August:
   * there the quarter ends on a 30th and `setDate(31)` is the cursor itself.
   */
  lemma QuarterlyStuck(cur: Date)
    requires Valid(cur)
    ensures Advance(Quarterly, cur) == cur <==> QuarterlyFixedPoint(cur)
  {
    AdvanceByDay(Quarterly, cur);
    OrderByDayNumber(cur, Advance(Quarterly, cur));
  }

  /**
   * A Quarterly walk from 1 April to 30 June of any year never ends: it
   * emits [1 Apr, 30 Jun], [1 May, 30 Jun] and [31 May, 30 Jun], and then
   * emits the last one forever.
   */
  lemma QuarterlyHangs(y: int)
    ensures Walk(Quarterly, Date(y, 4, 1), Date(y, 6, 30)) ==
      Split([Period(Date(y, 4, 1), Date(y, 6, 30)), Period(Date(y, 5, 1), Date(y, 6, 30)),
             Period(Date(y, 5, 31), Date(y, 6, 30))], true)
  {
    var to := Date(y, 6, 30);
    var a, b, c := Date(y, 4, 1), Date(y, 5, 1), Date(y, 5, 31);
    QuarterlySecondQuarter(y, a, b);
    QuarterlySecondQuarter(y, b, c);
    QuarterlySecondQuarter(y, c, c);
    assert Walk(Quarterly, c, to) == Split([Period(c, to)], true);
    assert Walk(Quarterly, b, to) == Split([Period(b, to)] + [Period(c, to)], true);
  }

  /**
   * In April, May or June the quarter ends on 30 June and the cursor moves
   * to `setDate(31)` of its own month.
   */
  lemma QuarterlySecondQuarter(y: int, cur: Date, next: Date)
    requires cur == Date(y, 4, 1) || cur == Date(y, 5, 1) || cur == Date(y, 5, 31)
    requires next == SetDate(y, cur.month, 31)
    ensures Valid(cur) && PeriodEnd(Quarterly, cur) == Date(y, 6, 30)
    ensures Clip(PeriodEnd(Quarterly, cur), Date(y, 6, 30)) == Date(y, 6, 30)
    ensures Advance(Quarterly, cur) == next
    ensures next == (if cur.month == 4 then Date(y, 5, 1) else Date(y, 5, 31))
  {
    if cur.month == 4 {
      assert SetDate(y, 4, 31) == SetDate(y, 5, 1);
    }
  }

  /**
   * An Annual walk over a whole year does not start its second period on
   * the next 1 January: the second period is [1 Feb, 31 Dec] of the same
   * year, which overlaps the first, [1 Jan, 31 Dec].
   */
  lemma AnnualOverlap(y: int, to: Date)
    requires Valid(to) && OnOrBefore(Date(y, 12, 31), to)
    ensures var ps := Walk(Annual, Date(y, 1, 1), to).periods;
      |ps| >= 2 && ps[0] == Period(Date(y, 1, 1), Date(y, 12, 31)) &&
      ps[1] == Period(Date(y, 2, 1), Date(y, 12, 31))
  {
    var a, b, e := Date(y, 1, 1), Date(y, 2, 1), Date(y, 12, 31);
    assert PeriodEnd(Annual, a) == e && PeriodEnd(Annual, b) == e;
    assert Clip(e, to) == e;
    assert SetDate(y, 1, 32) == SetDate(y, 2, 1) == b;
    assert Advance(Annual, a) == b;
    assert Walk(Annual, a, to).periods == [Period(a, e)] + Walk(Annual, b, to).periods;
    var c := Advance(Annual, b);
    AdvanceSpec(Annual, b);
    assert Walk(Annual, b, to).periods == [Period(b, e)] + Walk(Annual, c, to).periods;
  }

  /**
   * The evidently intended cursor move: the day after the period's
   * unclipped end.
   */
  function NextStart(p: Periodicity, cur: Date): (n: Date)
    requires Valid(cur) && p != Unrecognised
    ensures Valid(n)
  {
    AddDays(PeriodEnd(p, cur), 1)
  }

  /**
   * The intended next cursor is the day after the period's end: it moves
   * strictly forward, and no date lies strictly between the two.
   */
  lemma NextStartSpec(p: Periodicity, cur: Date)
    requires Valid(cur) && p != Unrecognised
    ensures DayAfter(PeriodEnd(p, cur), NextStart(p, cur))
    ensures OnOrBefore(PeriodEnd(p, cur), NextStart(p, cur))
    ensures OnOrBefore(cur, NextStart(p, cur)) && NextStart(p, cur) != cur
    ensures forall d :: Valid(d) && OnOrBefore(PeriodEnd(p, cur), d) && d != PeriodEnd(p, cur) ==>
      OnOrBefore(NextStart(p, cur), d)
  {
    var e, n := PeriodEnd(p, cur), NextStart(p, cur);
    AddDaysShift(e, 1);
    PeriodEndSpec(p, cur);
    OrderByDayNumber(cur, e);
    OrderByDayNumber(cur, n);
    OrderByDayNumber(e, n);
    forall d | Valid(d) && OnOrBefore(e, d) && d != e ensures OnOrBefore(n, d) {
      OrderByDayNumber(e, d);
      OrderByDayNumber(n, d);
    }
  }

  /** The walk with the intended cursor move. */
  function SplitContiguous(p: Periodicity, cur: Date, to: Date): seq<Period>
    requires Valid(cur) && Valid(to) && p != Unrecognised
    decreases (to.year - cur.year), 12 - cur.month, 31 - cur.day
  {
    if !OnOrBefore(cur, to) then []
    else
      NextStartSpec(p, cur);
      [Period(cur, Clip(PeriodEnd(p, cur), to))] + SplitContiguous(p, NextStart(p, cur), to)
  }

  /** With the intended cursor move every periodicity tiles `from..to`. */
  lemma {:induction false} ContiguousTiles(p: Periodicity, from: Date, to: Date)
    requires Valid(from) && Valid(to) && p != Unrecognised && OnOrBefore(from, to)
    ensures Tiles(SplitContiguous(p, from, to), from, to)
    decreases (to.year - from.year), 12 - from.month, 31 - from.day
  {
    var next := NextStart(p, from);
    var q := Period(from, Clip(PeriodEnd(p, from), to));
    ContiguousStep(p, from, to);
    if OnOrBefore(next, to) {
      ContiguousTiles(p, next, to);
      TilesCons(q, SplitContiguous(p, next, to), from, next, to);
    } else {
      assert [q] + [] == [q];
    }
  }

  /** One step of the contiguous walk: the first period, and where the rest starts. */
  lemma ContiguousStep(p: Periodicity, from: Date, to: Date)
    requires Valid(from) && Valid(to) && p != Unrecognised && OnOrBefore(from, to)
    ensures var next, q := NextStart(p, from), Period(from, Clip(PeriodEnd(p, from), to));
      SplitContiguous(p, from, to) == [q] + SplitContiguous(p, next, to) &&
      InRange(q, from, to) && OnOrBefore(from, next) && next != from &&
      (OnOrBefore(next, to) ==> DayAfter(q.end, next)) &&
      (!OnOrBefore(next, to) ==> SplitContiguous(p, next, to) == [] && q.end == to)
  {
    EmittedInRange(p, from, to);
    NextStartSpec(p, from);
  }

  /** A period ending the day before a tiling of `next..to` starts extends it to a tiling. */
  lemma TilesCons(q: Period, rest: seq<Period>, from: Date, next: Date, to: Date)
    requires InRange(q, from, to) && q.start == from && OnOrBefore(from, next) && DayAfter(q.end, next)
    requires Tiles(rest, next, to)
    ensures Tiles([q] + rest, from, to)
  {
    var ps := [q] + rest;
    WithinCons(q, rest, from, next, to);
    forall i | 0 <= i < |ps| - 1 ensures DayAfter(ps[i].end, ps[i + 1].start) {
      assert ps[i + 1] == rest[i];
      if i > 0 {
        assert ps[i] == rest[i - 1];
      }
    }
    assert ps[|ps| - 1] == rest[|rest| - 1];
  }

  /**
   * One more day on from day `n` of a month is day `n + 1` of it, both
   * carried forward the way `setDate` does.
   */
  lemma {:induction false} SetDateNext(y: int, m: int, n: int)
    requires 1 <= m <= 12 && n >= 1
    ensures SetDate(y, m, n + 1) == AddDays(SetDate(y, m, n), 1)
    decreases n
  {
    var dim := DaysInMonth(y, m);
    if n > dim {
      var y', m' := if m == 12 then y + 1 else y, if m == 12 then 1 else m + 1;
      CarryStep(y, m, n);
      CarryStep(y, m, n + 1);
      SetDateNext(y', m', n - dim);
    }
  }

  /** Past the end of its month, `setDate` carries into the next month. */
  lemma CarryStep(y: int, m: int, n: int)
    requires 1 <= m <= 12 && n > DaysInMonth(y, m)
    ensures SetDate(y, m, n) ==
      SetDate(if m == 12 then y + 1 else y, if m == 12 then 1 else m + 1, n - DaysInMonth(y, m))
  {
  }

  /** For Daily, Weekly and Monthly the cursor move as written is the intended one. */
  lemma AdvanceAsIntended(p: Periodicity, cur: Date)
    requires Valid(cur) && MovesToNextDay(p)
    ensures Advance(p, cur) == NextStart(p, cur)
  {
    if p == Weekly {
      SetDateNext(cur.year, cur.month, cur.day + 6 - Weekday(cur));
    }
  }

  /** So for those three the walk as written never hangs and is the contiguous one. */
  lemma {:induction false} WalkAsIntended(p: Periodicity, cur: Date, to: Date)
    requires Valid(cur) && Valid(to) && MovesToNextDay(p)
    ensures Walk(p, cur, to) == Split(SplitContiguous(p, cur, to), false)
    decreases (to.year - cur.year), 12 - cur.month, 31 - cur.day
  {
    if OnOrBefore(cur, to) {
      AdvanceAsIntended(p, cur);
      AdvanceSpec(p, cur);
      WalkAsIntended(p, Advance(p, cur), to);
    }
  }

  /** One iteration of a walk whose cursor always moves. */
  lemma WalkStep(p: Periodicity, cur: Date, to: Date)
    requires Valid(cur) && Valid(to) && Terminates(p) && OnOrBefore(cur, to)
    ensures Walk(p, cur, to).periods ==
      [Period(cur, Clip(PeriodEnd(p, cur), to))] + Walk(p, Advance(p, cur), to).periods
  {
    AdvanceSpec(p, cur);
  }

  /**
   * Every period the walk emits ends where the `switch` puts it: at the end
   * of its start's day, week, month, quarter or year, clipped to `to`.  When
   * `from <= to` the first period starts at `from`.
   */
  lemma {:induction false} WalkPeriodEnds(p: Periodicity, cur: Date, to: Date)
    requires Valid(cur) && Valid(to) && p != Unrecognised
    ensures var ps := Walk(p, cur, to).periods;
      (forall i :: 0 <= i < |ps| ==> Valid(ps[i].start) && ps[i].end == Clip(PeriodEnd(p, ps[i].start), to)) &&
      (OnOrBefore(cur, to) ==> ps != [] && ps[0].start == cur)
    decreases (to.year - cur.year), 12 - cur.month, 31 - cur.day
  {
    if OnOrBefore(cur, to) {
      var next := Advance(p, cur);
      var q := Period(cur, Clip(PeriodEnd(p, cur), to));
      WalkUnfold(p, cur, to);
      AdvanceSpec(p, cur);
      if next != cur {
        WalkPeriodEnds(p, next, to);
        var rest := Walk(p, next, to).periods;
        var ps := [q] + rest;
        forall i | 0 < i < |ps| ensures ps[i] == rest[i - 1] {
        }
      }
    }
  }

  /** Daily periods are single days: each starts and ends on the same date. */
  lemma DailyPeriods(cur: Date, to: Date)
    requires Valid(cur) && Valid(to)
    ensures var ps := Walk(Daily, cur, to).periods;
      forall i :: 0 <= i < |ps| ==> ps[i].start == ps[i].end
  {
    WalkPeriodEnds(Daily, cur, to);
    WalkWithin(Daily, cur, to);
  }

  /** `q` ends on a Saturday, or on `to`. */
  predicate EndsWeek(q: Period, to: Date) {
    ValidPeriod(q) && (Weekday(q.end) == 6 || q.end == to)
  }

  predicate StartsWeek(q: Period) {
    Valid(q.start) && Weekday(q.start) == 0
  }

  /**
   * Weekly periods end on a Saturday or on `to`, and every period but the
   * first starts on a Sunday.
   */
  lemma {:induction false} WeeklyPeriods(cur: Date, to: Date)
    requires Valid(cur) && Valid(to)
    ensures var ps := Walk(Weekly, cur, to).periods;
      (forall i :: 0 <= i < |ps| ==> EndsWeek(ps[i], to)) &&
      (forall i :: 0 < i < |ps| ==> StartsWeek(ps[i])) &&
      (ps != [] ==> ps[0].start == cur)
    decreases (to.year - cur.year), 12 - cur.month, 31 - cur.day
  {
    if OnOrBefore(cur, to) {
      var next := Advance(Weekly, cur);
      AdvanceSpec(Weekly, cur);
      var q := Period(cur, Clip(PeriodEnd(Weekly, cur), to));
      WeeklyStep(cur, to);
      WalkStep(Weekly, cur, to);
      WeeklyPeriods(next, to);
      var rest := Walk(Weekly, next, to).periods;
      var ps := [q] + rest;
      forall i | 0 <= i < |ps| ensures EndsWeek(ps[i], to) {
        if i > 0 {
          assert ps[i] == rest[i - 1];
        }
      }
      forall i | 0 < i < |ps| ensures StartsWeek(ps[i]) {
        assert ps[i] == rest[i - 1];
      }
    }
  }

  /** One Weekly iteration: the period it emits ends the week, and the cursor moves to a Sunday. */
  lemma WeeklyStep(cur: Date, to: Date)
    requires Valid(cur) && Valid(to)
    ensures EndsWeek(Period(cur, Clip(PeriodEnd(Weekly, cur), to)), to)
    ensures StartsWeek(Period(Advance(Weekly, cur), to))
  {
    var w := Weekday(cur);
    PeriodEndSpec(Weekly, cur);
    AddDaysShift(cur, 7 - w);
    assert Advance(Weekly, cur) == AddDays(cur, 7 - w);
  }

  /** `q` lies in one month and ends on its last day, or ends on `to`. */
  predicate EndsMonth(q: Period, to: Date) {
    ValidPeriod(q) &&
    (q.end == to ||
     (q.end.year == q.start.year && q.end.month == q.start.month &&
      q.end.day == DaysInMonth(q.end.year, q.end.month)))
  }

  /**
   * Monthly periods lie within one calendar month and end on its last day
   * or on `to`; every period but the first starts on the 1st.
   */
  lemma {:induction false} MonthlyPeriods(cur: Date, to: Date)
    requires Valid(cur) && Valid(to)
    ensures var ps := Walk(Monthly, cur, to).periods;
      (forall i :: 0 <= i < |ps| ==> EndsMonth(ps[i], to)) &&
      (forall i :: 0 < i < |ps| ==> ps[i].start.day == 1) &&
      (ps != [] ==> ps[0].start == cur)
    decreases (to.year - cur.year), 12 - cur.month, 31 - cur.day
  {
    if OnOrBefore(cur, to) {
      var next := Advance(Monthly, cur);
      AdvanceSpec(Monthly, cur);
      MonthlyStep(cur, to);
      WalkStep(Monthly, cur, to);
      MonthlyPeriods(next, to);
      MonthsCons(Period(cur, Clip(PeriodEnd(Monthly, cur), to)), Walk(Monthly, next, to).periods, to);
    }
  }

  lemma MonthsCons(q: Period, rest: seq<Period>, to: Date)
    requires EndsMonth(q, to)
    requires forall i :: 0 <= i < |rest| ==> EndsMonth(rest[i], to)
    requires forall i :: 0 < i < |rest| ==> rest[i].start.day == 1
    requires rest != [] ==> rest[0].start.day == 1
    ensures var ps := [q] + rest;
      (forall i :: 0 <= i < |ps| ==> EndsMonth(ps[i], to)) &&
      (forall i :: 0 < i < |ps| ==> ps[i].start.day == 1) &&
      ps[0].start == q.start
  {
    var ps := [q] + rest;
    forall i | 0 < i < |ps| ensures ps[i] == rest[i - 1] {
    }
  }

  /** One Monthly iteration: the period it emits, and the cursor on the 1st of the next month. */
  lemma MonthlyStep(cur: Date, to: Date)
    requires Valid(cur) && Valid(to) && OnOrBefore(cur, to)
    ensures EndsMonth(Period(cur, Clip(PeriodEnd(Monthly, cur), to)), to)
    ensures Advance(Monthly, cur).day == 1
  {
    NextMonthFirst(cur.year, cur.month);
  }

  /** The day after the last of a month is the 1st of the next. */
  lemma NextMonthFirst(y: int, m: int)
    requires 1 <= m <= 12
    ensures SetDate(y, m, DaysInMonth(y, m) + 1).day == 1
  {
    if m == 12 {
      assert SetDate(y, m, 32) == SetDate(y + 1, 1, 1);
    } else {
      assert SetDate(y, m, DaysInMonth(y, m) + 1) == SetDate(y, m + 1, 1);
    }
  }
}
