/**
 * A user's schedules (one-shot reminders, daily messages, annual special
 * dates), how the directives of a reply are stored into them and into the
 * memories, and the scheduler's per-minute firing rules.
 */
module Schedules {
  import opened Wrappers
  import opened Text
  import opened Directives
  import opened Memory

  /** A one-shot reminder: fires at `time` on `date`, then is removed. */
  datatype TimedItem = TimedItem(time: string, hint: string, date: string)

  /** A daily message: fires whenever the clock shows `time`, and stays. */
  datatype DailyItem = DailyItem(time: string, topic: string)

  /** One user's entry in the schedule store; special dates map `MM-DD` to a description. */
  datatype UserSchedules = UserSchedules(timed: seq<TimedItem>, daily: seq<DailyItem>, specialDates: map<string, string>)

  const NoSchedules: UserSchedules := UserSchedules([], [], map[])

  /** The entry the store holds for `uid`, or the empty one. */
  function ScheduleOf(store: map<string, UserSchedules>, uid: string): UserSchedules {
    if uid in store then store[uid] else NoSchedules
  }

  // ------------------------------------------------------------ the clock

  /** A reading of the China-time clock, to the minute. */
  datatype Clock = Clock(year: int, month: int, day: int, hour: int, minute: int)

  predicate ValidClock(c: Clock) {
    1000 <= c.year <= 9999 && 1 <= c.month <= 12 && 1 <= c.day <= 31 && 0 <= c.hour < 24 && 0 <= c.minute < 60
  }

  /** `strftime("%H:%M")` */
  function ClockText(c: Clock): (t: string)
    requires ValidClock(c)
    ensures |t| == 5 && t[2] == ':'
  {
    Pad2(c.hour) + ":" + Pad2(c.minute)
  }

  /** `strftime("%Y-%m-%d")` */
  function DateText(c: Clock): string
    requires ValidClock(c)
  {
    Pad4(c.year) + "-" + Pad2(c.month) + "-" + Pad2(c.day)
  }

  /** `strftime("%m-%d")` */
  function MonthDayText(c: Clock): string
    requires ValidClock(c)
  {
    Pad2(c.month) + "-" + Pad2(c.day)
  }

  /** The clock reads `"00:00"` exactly at midnight. */
  lemma MidnightText(c: Clock)
    requires ValidClock(c)
    ensures ClockText(c) == "00:00" <==> c.hour == 0 && c.minute == 0
  {
    var t := ClockText(c);
    assert Pad2(0) == "00";
    if t == "00:00" {
      assert t[..2] == Pad2(c.hour) && t[3..] == Pad2(c.minute);
      Pad2Injective(c.hour, 0);
      Pad2Injective(c.minute, 0);
    }
  }

  /** Clock text is `HH:MM`: it determines the hour and the minute. */
  lemma ClockTextInjective(c: Clock, e: Clock)
    requires ValidClock(c) && ValidClock(e) && ClockText(c) == ClockText(e)
    ensures c.hour == e.hour && c.minute == e.minute
  {
    var t, u := ClockText(c), ClockText(e);
    assert t[..2] == Pad2(c.hour) && t[3..] == Pad2(c.minute);
    assert u[..2] == Pad2(e.hour) && u[3..] == Pad2(e.minute);
    Pad2Injective(c.hour, e.hour);
    Pad2Injective(c.minute, e.minute);
  }

  // ------------------------------------------------------------ storing directives

  /** A directive time as written (`H:MM` or `HH:MM`) in the clock's `HH:MM` form. */
  function NormalizeTime(t: string): (r: string)
    ensures IsClockText(t) ==> |r| == 5 && IsClockText(r)
  {
    if |t| == 4 then "0" + t else t
  }

  /**
   * How a directive's time is stored: `AsMatched` keeps the text the regex
   * matched, as the bot does; `ClockForm` brings it to the clock's `HH:MM`,
   * as the directive's format intends.
   */
  datatype TimeForm = AsMatched | ClockForm

  function StoredTime(time: string, form: TimeForm): (r: string)
    ensures form == AsMatched ==> r == time
    ensures form == ClockForm && IsClockText(time) ==>
              && |r| == 5 && IsClockText(r) && r[5 - |time|..] == time
              && (forall i :: 0 <= i < 5 - |time| ==> r[i] == '0')
  {
    if form == ClockForm then NormalizeTime(time) else time
  }

  /** The reminder `[[定时|time|hint]]` stores, dated `today`. */
  function TimedEntry(time: string, hint: string, today: string, form: TimeForm): TimedItem {
    TimedItem(StoredTime(time, form), hint, today)
  }

  /** The daily message `[[每日|time|topic]]` stores. */
  function DailyEntry(time: string, topic: string, form: TimeForm): DailyItem {
    DailyItem(StoredTime(time, form), topic)
  }

  /** A timed item fires at clock `c` when both its time and its date are the clock's. */
  predicate Due(item: TimedItem, c: Clock)
    requires ValidClock(c)
  {
    item.time == ClockText(c) && item.date == DateText(c)
  }

  /** A reminder stored as matched with a one-digit hour, as the bot stores `[[定时|9:05|…]]`, is due at no minute at all. */
  lemma UnpaddedReminderNeverDue(time: string, hint: string, today: string, c: Clock)
    requires ValidClock(c) && |time| == 4
    ensures !Due(TimedEntry(time, hint, today, AsMatched), c)
  {
  }

  /** A daily message stored as matched with a one-digit hour, as the bot stores `[[每日|9:05|…]]`, fires at no minute either. */
  lemma UnpaddedDailyNeverFires(time: string, topic: string, c: Clock)
    requires ValidClock(c) && |time| == 4
    ensures DailyDue([DailyEntry(time, topic, AsMatched)], c) == []
  {
    assert [DailyEntry(time, topic, AsMatched)][1..] == [];
  }

  /** The hour a directive time names: the one or two digits before the colon. */
  function HourOf(t: string): nat
    requires IsClockText(t)
  {
    if |t| == 4 then DigitValue(t[0]) else 10 * DigitValue(t[0]) + DigitValue(t[1])
  }

  /** The minute a directive time names: the two digits after the colon. */
  function MinuteOf(t: string): nat
    requires IsClockText(t)
  {
    10 * DigitValue(t[|t| - 2]) + DigitValue(t[|t| - 1])
  }

  lemma DigitCharValue(d: nat)
    requires d < 10
    ensures DigitValue(DigitChar(d)) == d
  {
  }

  /** In clock form a time reads as the clock exactly when it names the clock's hour and minute. */
  lemma NormalizedMatchesClock(time: string, c: Clock)
    requires ValidClock(c) && IsClockText(time)
    ensures NormalizeTime(time) == ClockText(c) <==> HourOf(time) == c.hour && MinuteOf(time) == c.minute
  {
    var n, ct := NormalizeTime(time), ClockText(c);
    DigitCharValue(c.hour / 10);
    DigitCharValue(c.hour % 10);
    DigitCharValue(c.minute / 10);
    DigitCharValue(c.minute % 10);
    assert ct == [DigitChar(c.hour / 10), DigitChar(c.hour % 10), ':', DigitChar(c.minute / 10), DigitChar(c.minute % 10)];
    assert DigitValue('0') == 0;
    assert HourOf(time) == 10 * DigitValue(n[0]) + DigitValue(n[1]);
    assert MinuteOf(time) == 10 * DigitValue(n[3]) + DigitValue(n[4]);
    if HourOf(time) == c.hour && MinuteOf(time) == c.minute {
      assert DigitValue(n[0]) == c.hour / 10 && DigitValue(n[1]) == c.hour % 10;
      assert DigitValue(n[3]) == c.minute / 10 && DigitValue(n[4]) == c.minute % 10;
      assert n == ct;
    }
  }

  /** Stored in clock form, a daily message set for `H:MM` fires exactly when the clock's hour is H and its minute MM. */
  lemma DailyFiresAtItsMinute(time: string, topic: string, c: Clock)
    requires ValidClock(c) && IsClockText(time)
    ensures DailyDue([DailyEntry(time, topic, ClockForm)], c) != [] <==> HourOf(time) == c.hour && MinuteOf(time) == c.minute
  {
    assert [DailyEntry(time, topic, ClockForm)][1..] == [];
    NormalizedMatchesClock(time, c);
  }

  /** Stored in clock form, a reminder set for `H:MM` today is due exactly when the clock's hour is H and its minute MM. */
  lemma ReminderDueAtItsMinute(time: string, hint: string, c: Clock)
    requires ValidClock(c) && IsClockText(time)
    ensures Due(TimedEntry(time, hint, DateText(c), ClockForm), c) <==> HourOf(time) == c.hour && MinuteOf(time) == c.minute
  {
    NormalizedMatchesClock(time, c);
  }

  /** The clock's own reading survives normalisation: a reminder written in `HH:MM` form at clock `c` is due at `c`. */
  lemma ClockTextNormal(c: Clock, hint: string)
    requires ValidClock(c)
    ensures Due(TimedEntry(ClockText(c), hint, DateText(c), ClockForm), c)
  {
  }

  /** The result of storing directives: the user's schedules and the whole memory store. */
  datatype Stored = Stored(schedules: UserSchedules, memories: map<string, seq<MemoryEntry>>)

  /** The memories the store holds for `uid`, or none. */
  function MemoriesOf(mems: map<string, seq<MemoryEntry>>, uid: string): seq<MemoryEntry> {
    if uid in mems then mems[uid] else []
  }

  /**
   * What one directive does to `uid`'s schedules and to the memory store;
   * `today` is the date and `stamp` the time text of the moment of parsing,
   * and `form` says how reminder and daily times are stored.
   */
  function StoreDirective(st: Stored, uid: string, d: Directive, today: string, stamp: string, form: TimeForm): Stored {
    var s := st.schedules;
    match d
    case Timed(time, hint) => st.(schedules := s.(timed := s.timed + [TimedEntry(time, hint, today, form)]))
    case Daily(time, topic) => st.(schedules := s.(daily := s.daily + [DailyEntry(time, topic, form)]))
    case MemoryFor(user, content) =>
      st.(memories := st.memories[user := Admit(MemoriesOf(st.memories, user), content, stamp)])
    case MemorySelf(content) =>
      st.(memories := st.memories[uid := Admit(MemoriesOf(st.memories, uid), content, stamp)])
    case SpecialDate(monthDay, desc) => st.(schedules := s.(specialDates := s.specialDates[monthDay := desc]))
  }

  /** The directives stored one after the other, in the order the parser returns them. */
  function StoreAll(st: Stored, uid: string, ds: seq<Directive>, today: string, stamp: string, form: TimeForm): Stored
    decreases |ds|
  {
    if ds == [] then st else StoreAll(StoreDirective(st, uid, ds[0], today, stamp, form), uid, ds[1..], today, stamp, form)
  }

  /**
   * The stores of `parse_hidden_commands`: the user always gets a schedule
   * entry, then each directive is stored in turn.
   */
  method StoreDirectives(store: map<string, UserSchedules>, mems: map<string, seq<MemoryEntry>>, uid: string,
                         ds: seq<Directive>, today: string, stamp: string, form: TimeForm)
    returns (store': map<string, UserSchedules>, mems': map<string, seq<MemoryEntry>>)
    ensures var st := StoreAll(Stored(ScheduleOf(store, uid), mems), uid, ds, today, stamp, form);
            store' == store[uid := st.schedules] && mems' == st.memories
  {
    var st := Stored(ScheduleOf(store, uid), mems);
    for i := 0 to |ds|
      invariant StoreAll(st, uid, ds[i..], today, stamp, form) == StoreAll(Stored(ScheduleOf(store, uid), mems), uid, ds, today, stamp, form)
    {
      assert ds[i..][0] == ds[i] && ds[i..][1..] == ds[i + 1..];
      var s := st.schedules;
      match ds[i]
      case Timed(time, hint) =>
        st := st.(schedules := s.(timed := s.timed + [TimedEntry(time, hint, today, form)]));
      case Daily(time, topic) =>
        st := st.(schedules := s.(daily := s.daily + [DailyEntry(time, topic, form)]));
      case MemoryFor(user, content) =>
        var saved := AddMemory(MemoriesOf(st.memories, user), content, stamp);
        st := st.(memories := st.memories[user := saved]);
      case MemorySelf(content) =>
        var saved := AddMemory(MemoriesOf(st.memories, uid), content, stamp);
        st := st.(memories := st.memories[uid := saved]);
      case SpecialDate(monthDay, desc) =>
        st := st.(schedules := s.(specialDates := s.specialDates[monthDay := desc]));
    }
    assert ds[|ds|..] == [];
    store', mems' := store[uid := st.schedules], st.memories;
  }

  /** The description of the last special-date directive for `md` in `ds`, if there is one. */
  function LastDesc(ds: seq<Directive>, md: string): Option<string>
    decreases |ds|
  {
    if ds == [] then None
    else
      var last := ds[|ds| - 1];
      if last.SpecialDate? && last.monthDay == md then Some(last.desc) else LastDesc(ds[..|ds| - 1], md)
  }

  lemma StoreAllSnoc(st: Stored, uid: string, ds: seq<Directive>, d: Directive, today: string, stamp: string, form: TimeForm)
    ensures StoreAll(st, uid, ds + [d], today, stamp, form) == StoreDirective(StoreAll(st, uid, ds, today, stamp, form), uid, d, today, stamp, form)
    decreases |ds|
  {
    if ds != [] {
      assert (ds + [d])[0] == ds[0] && (ds + [d])[1..] == ds[1..] + [d];
      StoreAllSnoc(StoreDirective(st, uid, ds[0], today, stamp, form), uid, ds[1..], d, today, stamp, form);
    } else {
      assert [d][1..] == [];
    }
  }

  /**
   * A special date given twice keeps the last description; a date no
   * directive names keeps what it had.
   */
  lemma {:induction false} SpecialDateLastWins(st: Stored, uid: string, ds: seq<Directive>, today: string, stamp: string, form: TimeForm, md: string)
    ensures var after := StoreAll(st, uid, ds, today, stamp, form).schedules.specialDates;
            match LastDesc(ds, md)
            case Some(desc) => md in after && after[md] == desc
            case None => (md in after <==> md in st.schedules.specialDates)
                         && (md in after ==> after[md] == st.schedules.specialDates[md])
    decreases |ds|
  {
    if ds != [] {
      var init := ds[..|ds| - 1];
      assert ds == init + [ds[|ds| - 1]];
      StoreAllSnoc(st, uid, init, ds[|ds| - 1], today, stamp, form);
      SpecialDateLastWins(st, uid, init, today, stamp, form, md);
    }
  }

  /** The timed directives, as the reminders they store. */
  function TimedOf(ds: seq<Directive>, today: string, form: TimeForm): seq<TimedItem>
    decreases |ds|
  {
    if ds == [] then []
    else (if ds[0].Timed? then [TimedEntry(ds[0].time, ds[0].hint, today, form)] else []) + TimedOf(ds[1..], today, form)
  }

  /** Each timed directive appends one reminder, in order, after the ones already there; none is lost. */
  lemma {:induction false} TimedAppended(st: Stored, uid: string, ds: seq<Directive>, today: string, stamp: string, form: TimeForm)
    ensures StoreAll(st, uid, ds, today, stamp, form).schedules.timed == st.schedules.timed + TimedOf(ds, today, form)
    decreases |ds|
  {
    if ds != [] {
      var next := StoreDirective(st, uid, ds[0], today, stamp, form);
      TimedAppended(next, uid, ds[1..], today, stamp, form);
      assert next.schedules.timed == st.schedules.timed + (if ds[0].Timed? then [TimedEntry(ds[0].time, ds[0].hint, today, form)] else []);
    }
  }

  /** The reminder of each timed directive is among the ones the directives store. */
  lemma {:induction false} TimedOfHas(ds: seq<Directive>, today: string, form: TimeForm, k: nat)
    requires k < |ds| && ds[k].Timed?
    ensures TimedEntry(ds[k].time, ds[k].hint, today, form) in TimedOf(ds, today, form)
    decreases |ds|
  {
    if k > 0 {
      assert ds[1..][k - 1] == ds[k];
      TimedOfHas(ds[1..], today, form, k - 1);
    }
  }

  /**
   * As the bot stores them, a reminder directive with a one-digit hour
   * leaves a reminder that no clock reading makes due, so it stays pending
   * however many minutes the scheduler looks at.
   */
  lemma UnpaddedReminderStaysForever(st: Stored, uid: string, ds: seq<Directive>, today: string, stamp: string,
                                     k: nat, ticks: seq<Clock>)
    requires k < |ds| && ds[k].Timed? && |ds[k].time| == 4
    requires forall j :: 0 <= j < |ticks| ==> ValidClock(ticks[j])
    ensures var timed := StoreAll(st, uid, ds, today, stamp, AsMatched).schedules.timed;
            TimedEntry(ds[k].time, ds[k].hint, today, AsMatched) in AfterTicks(timed, ticks)
  {
    var timed := StoreAll(st, uid, ds, today, stamp, AsMatched).schedules.timed;
    var x := TimedEntry(ds[k].time, ds[k].hint, today, AsMatched);
    TimedAppended(st, uid, ds, today, stamp, AsMatched);
    TimedOfHas(ds, today, AsMatched, k);
    forall j | 0 <= j < |ticks| ensures !Due(x, ticks[j]) {
      UnpaddedReminderNeverDue(ds[k].time, ds[k].hint, today, ticks[j]);
    }
    MissedStaysPending(timed, ticks, x);
  }

  /** Only memory directives touch the memory store, and only for users they name (or the current user). */
  lemma {:induction false} MemoriesOfOthersUnchanged(st: Stored, uid: string, ds: seq<Directive>, today: string, stamp: string, form: TimeForm, other: string)
    requires other != uid
    requires forall k :: 0 <= k < |ds| ==> !(ds[k].MemoryFor? && ds[k].user == other)
    ensures MemoriesOf(StoreAll(st, uid, ds, today, stamp, form).memories, other) == MemoriesOf(st.memories, other)
    decreases |ds|
  {
    if ds != [] {
      MemoriesOfOthersUnchanged(StoreDirective(st, uid, ds[0], today, stamp, form), uid, ds[1..], today, stamp, form, other);
    }
  }

  // ------------------------------------------------------------ firing

  /** The reminders not due at `c`, in their order. */
  function Pending(timed: seq<TimedItem>, c: Clock): seq<TimedItem>
    requires ValidClock(c)
  {
    if timed == [] then []
    else (if Due(timed[0], c) then [] else [timed[0]]) + Pending(timed[1..], c)
  }

  /** The reminders due at `c`, in their order. */
  function DueNow(timed: seq<TimedItem>, c: Clock): seq<TimedItem>
    requires ValidClock(c)
  {
    if timed == [] then []
    else (if Due(timed[0], c) then [timed[0]] else []) + DueNow(timed[1..], c)
  }

  /**
   * Every reminder is either fired or kept, never both and never lost: the
   * kept ones are exactly the ones not due, the fired ones exactly the due ones.
   */
  lemma PendingAndDuePartition(timed: seq<TimedItem>, c: Clock)
    requires ValidClock(c)
    ensures multiset(Pending(timed, c)) + multiset(DueNow(timed, c)) == multiset(timed)
    ensures forall x :: x in Pending(timed, c) <==> x in timed && !Due(x, c)
    ensures forall x :: x in DueNow(timed, c) <==> x in timed && Due(x, c)
  {
    PendingAndDueSplit(timed, c);
    PendingMembers(timed, c);
  }

  lemma {:induction false} PendingAndDueSplit(timed: seq<TimedItem>, c: Clock)
    requires ValidClock(c)
    ensures multiset(Pending(timed, c)) + multiset(DueNow(timed, c)) == multiset(timed)
    decreases |timed|
  {
    if timed != [] {
      PendingAndDueSplit(timed[1..], c);
      assert timed == [timed[0]] + timed[1..];
      PendingStep(timed, c);
    }
  }

  lemma {:induction false} PendingMembers(timed: seq<TimedItem>, c: Clock)
    requires ValidClock(c)
    ensures forall x :: x in Pending(timed, c) <==> x in timed && !Due(x, c)
    ensures forall x :: x in DueNow(timed, c) <==> x in timed && Due(x, c)
    decreases |timed|
  {
    if timed != [] {
      PendingMembers(timed[1..], c);
      assert timed == [timed[0]] + timed[1..];
      PendingStep(timed, c);
    }
  }

  lemma PendingStep(timed: seq<TimedItem>, c: Clock)
    requires ValidClock(c) && timed != []
    ensures Pending(timed, c) == (if Due(timed[0], c) then [] else [timed[0]]) + Pending(timed[1..], c)
    ensures DueNow(timed, c) == (if Due(timed[0], c) then [timed[0]] else []) + DueNow(timed[1..], c)
  {
  }

  /** A second look at the same minute fires nothing more. */
  lemma {:induction false} NothingFiresTwice(timed: seq<TimedItem>, c: Clock)
    requires ValidClock(c)
    ensures DueNow(Pending(timed, c), c) == []
    ensures Pending(Pending(timed, c), c) == Pending(timed, c)
    decreases |timed|
  {
    if timed != [] {
      NothingFiresTwice(timed[1..], c);
      PendingStep(timed, c);
      var rest := Pending(timed[1..], c);
      if !Due(timed[0], c) {
        var p := [timed[0]] + rest;
        assert p[0] == timed[0] && p[1..] == rest;
        PendingStep(p, c);
      } else {
        assert Pending(timed, c) == rest;
      }
    }
  }

  /** The reminders left after the scheduler has looked at each clock reading of `ticks` in turn. */
  function AfterTicks(timed: seq<TimedItem>, ticks: seq<Clock>): seq<TimedItem>
    requires forall k :: 0 <= k < |ticks| ==> ValidClock(ticks[k])
    decreases |ticks|
  {
    if ticks == [] then timed else AfterTicks(Pending(timed, ticks[0]), ticks[1..])
  }

  /** A reminder whose minute never comes up (a missed minute, an unpadded time) stays pending however long the scheduler runs. */
  lemma {:induction false} MissedStaysPending(timed: seq<TimedItem>, ticks: seq<Clock>, x: TimedItem)
    requires forall k :: 0 <= k < |ticks| ==> ValidClock(ticks[k])
    requires x in timed
    requires forall k :: 0 <= k < |ticks| ==> !Due(x, ticks[k])
    ensures x in AfterTicks(timed, ticks)
    decreases |ticks|
  {
    if ticks != [] {
      PendingAndDuePartition(timed, ticks[0]);
      MissedStaysPending(Pending(timed, ticks[0]), ticks[1..], x);
    }
  }

  /** A call the scheduler makes to the model for one user at one minute. */
  datatype Firing = TimedFire(hint: string) | DailyFire(topic: string) | SpecialFire(desc: string)

  /** The daily messages due at `c`, in order. */
  function DailyDue(daily: seq<DailyItem>, c: Clock): (r: seq<Firing>)
    requires ValidClock(c)
    ensures forall k :: 0 <= k < |r| ==> r[k].DailyFire?
    ensures forall x :: x in daily && x.time == ClockText(c) ==> DailyFire(x.topic) in r
  {
    if daily == [] then []
    else (if daily[0].time == ClockText(c) then [DailyFire(daily[0].topic)] else []) + DailyDue(daily[1..], c)
  }

  /** Daily messages fire in list order: the firings of a concatenation are those of each part in turn. */
  lemma {:induction false} DailyDueAppend(a: seq<DailyItem>, b: seq<DailyItem>, c: Clock)
    requires ValidClock(c)
    ensures DailyDue(a + b, c) == DailyDue(a, c) + DailyDue(b, c)
    decreases |a|
  {
    if a == [] {
      assert a + b == b;
    } else {
      assert (a + b)[0] == a[0] && (a + b)[1..] == a[1..] + b;
      DailyDueAppend(a[1..], b, c);
    }
  }

  /** Exactly the daily messages whose time is the clock's fire: a firing is made iff some such item has its topic. */
  lemma {:induction false} DailyDueExactly(daily: seq<DailyItem>, c: Clock)
    requires ValidClock(c)
    ensures forall f :: f in DailyDue(daily, c) <==> exists x :: x in daily && x.time == ClockText(c) && f == DailyFire(x.topic)
    decreases |daily|
  {
    if daily != [] {
      DailyDueExactly(daily[1..], c);
      assert forall x :: x in daily <==> x == daily[0] || x in daily[1..];
    }
  }

  /** The special date for `c`, consulted only at `"00:00"`. */
  function SpecialDue(dates: map<string, string>, c: Clock): (r: seq<Firing>)
    requires ValidClock(c)
  {
    if ClockText(c) == "00:00" && MonthDayText(c) in dates then [SpecialFire(dates[MonthDayText(c)])] else []
  }

  /** A special date fires only at midnight, and then exactly when today's `MM-DD` is one. */
  lemma SpecialOnlyAtMidnight(dates: map<string, string>, c: Clock)
    requires ValidClock(c)
    ensures SpecialDue(dates, c) != [] <==> c.hour == 0 && c.minute == 0 && MonthDayText(c) in dates
  {
    MidnightText(c);
  }

  function TimedFires(items: seq<TimedItem>): (r: seq<Firing>)
    ensures |r| == |items|
    ensures forall k :: 0 <= k < |items| ==> r[k] == TimedFire(items[k].hint)
  {
    if items == [] then [] else [TimedFire(items[0].hint)] + TimedFires(items[1..])
  }

  /** The calls made for one user at `c`: due reminders, then due daily messages, then the special date. */
  function FiringsAt(s: UserSchedules, c: Clock): seq<Firing>
    requires ValidClock(c)
  {
    TimedFires(DueNow(s.timed, c)) + DailyDue(s.daily, c) + SpecialDue(s.specialDates, c)
  }

  /**
   * The scheduler's work for one user with a channel: the reminder loop
   * builds the kept list step by step; daily messages and special dates are
   * only read.
   */
  method TickUser(s: UserSchedules, c: Clock) returns (s': UserSchedules, fired: seq<Firing>)
    requires ValidClock(c)
    ensures s' == s.(timed := Pending(s.timed, c))
    ensures fired == FiringsAt(s, c)
  {
    var newTimed: seq<TimedItem> := [];
    fired := [];
    for i := 0 to |s.timed|
      invariant newTimed == Pending(s.timed[..i], c)
      invariant fired == TimedFires(DueNow(s.timed[..i], c))
    {
      var item := s.timed[i];
      assert s.timed[..i + 1] == s.timed[..i] + [item];
      PendingSnoc(s.timed[..i], item, c);
      TimedFiresAppend(DueNow(s.timed[..i], c), if Due(item, c) then [item] else []);
      if item.time == ClockText(c) && item.date == DateText(c) {
        fired := fired + [TimedFire(item.hint)];
      } else {
        newTimed := newTimed + [item];
      }
    }
    assert s.timed[..|s.timed|] == s.timed;
    var daily: seq<Firing> := [];
    for i := 0 to |s.daily|
      invariant daily == DailyDue(s.daily[..i], c)
    {
      var item := s.daily[i];
      assert s.daily[..i + 1] == s.daily[..i] + [item];
      DailyDueSnoc(s.daily[..i], item, c);
      if item.time == ClockText(c) {
        daily := daily + [DailyFire(item.topic)];
      }
    }
    assert s.daily[..|s.daily|] == s.daily;
    fired := fired + daily + SpecialDue(s.specialDates, c);
    s' := s.(timed := newTimed);
  }

  lemma {:induction false} PendingSnoc(timed: seq<TimedItem>, x: TimedItem, c: Clock)
    requires ValidClock(c)
    ensures Pending(timed + [x], c) == Pending(timed, c) + (if Due(x, c) then [] else [x])
    ensures DueNow(timed + [x], c) == DueNow(timed, c) + (if Due(x, c) then [x] else [])
    decreases |timed|
  {
    var t := timed + [x];
    if timed == [] {
      assert t == [x] && t[1..] == [];
      PendingStep(t, c);
    } else {
      assert t[0] == timed[0] && t[1..] == timed[1..] + [x];
      PendingSnoc(timed[1..], x, c);
      PendingStep(t, c);
      PendingStep(timed, c);
    }
  }

  lemma TimedFiresAppend(a: seq<TimedItem>, b: seq<TimedItem>)
    ensures TimedFires(a + b) == TimedFires(a) + TimedFires(b)
  {
    var l, r := TimedFires(a + b), TimedFires(a) + TimedFires(b);
    assert |l| == |r|;
    forall k | 0 <= k < |l| ensures l[k] == r[k] {
      if k < |a| {
        assert (a + b)[k] == a[k];
      } else {
        assert (a + b)[k] == b[k - |a|];
      }
    }
  }

  lemma {:induction false} DailyDueSnoc(daily: seq<DailyItem>, x: DailyItem, c: Clock)
    requires ValidClock(c)
    ensures DailyDue(daily + [x], c) == DailyDue(daily, c) + (if x.time == ClockText(c) then [DailyFire(x.topic)] else [])
    decreases |daily|
  {
    if daily == [] {
      assert [x][1..] == [];
    } else {
      assert (daily + [x])[0] == daily[0] && (daily + [x])[1..] == daily[1..] + [x];
      DailyDueSnoc(daily[1..], x, c);
    }
  }

  // ------------------------------------------------------------ sending what the model answers

  /**
   * What the scheduler sends for a fired call once the model has answered:
   * nothing when the answer contains `[不发]` or its visible part is blank,
   * otherwise the visible part.
   */
  function ScheduledMessage(reply: string): (r: Option<string>)
    ensures r.Some? ==> r.value == Parse(reply).visible && r.value != [] && !Contains(reply, "[不发]")
    ensures Contains(reply, "[不发]") ==> r.None?
    ensures !Contains(reply, "[不发]") && Strip(Parse(reply).visible) != [] ==> r == Some(Parse(reply).visible)
  {
    if Contains(reply, "[不发]") then None
    else
      var visible := Parse(reply).visible;
      if Strip(visible) == [] then None else Some(visible)
  }

  /** A message the scheduler sends is clean: stripped, with no run of three newlines. */
  lemma ScheduledMessageIsClean(reply: string)
    requires ScheduledMessage(reply).Some?
    ensures var m := ScheduledMessage(reply).value;
            IsStripped(m) && NoTripleNewline(m)
  {
    VisibleIsClean(reply);
  }
}
