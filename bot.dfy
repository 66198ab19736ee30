/**
 * The bot's flows over its three stores (user records, schedules, memories):
 * answering a user's turn (`process_message` and `delayed_process`), the
 * `/reset` command, and one pass of the background scheduler. The model's
 * answer and the clock are parameters; the Slack calls become the returned
 * delivery plan and firings.
 */
module Bot {
  import opened Wrappers
  import opened Text
  import opened History
  import opened Directives
  import opened Memory
  import opened UserData
  import opened Schedules
  import opened Delivery
  import Session

  /** The three stores, as the bot loads and saves them. */
  datatype Store = Store(
    users: map<string, UserRecord>,
    schedules: map<string, UserSchedules>,
    memories: map<string, seq<MemoryEntry>>)

  // ------------------------------------------------------------ a user's turn

  /** A turn answered at once (`process_message`) or after the short-mode pause (`delayed_process`). */
  datatype Path = Direct | Debounced

  /** The record a turn starts from for a user the store does not know; only the mode differs. */
  function StartRecord(path: Path): UserRecord {
    UserRecord([], Some(DefaultApi), Some(if path == Direct then "long" else "short"), 0, None, None)
  }

  /** The time reads of a turn: today's `YYYY-MM-DD`, the stamp memories carry, and the clock in seconds. */
  datatype Moment = Moment(today: string, stamp: string, seconds: int)

  /** What the user sees: the points message, or the delivery of the answer. */
  datatype Outcome = NotEnoughPoints(remaining: int, cost: int) | Answered(plan: Plan)

  /** The record after the turn: activity time, channel (answered at once only) and the two new history entries. */
  function Recorded(user: UserRecord, path: Path, channel: string, text: string, reply: string, now: Moment): UserRecord {
    user.(history := user.history + [Turn("user", text), Turn("assistant", reply)],
          lastActive := Some(now.seconds),
          channel := if path == Direct then Some(channel) else user.channel)
  }

  /** Whether the answer may be split on `|||`: always after the pause, in short mode otherwise. */
  function SplitAllowed(path: Path, user: UserRecord): bool {
    path == Debounced || user.mode.GetOr("long") == "short"
  }

  /** The turn that answers a message the events endpoint routed: a buffered message is answered after the pause. */
  function PathOf(route: Session.Route): Path {
    if route == Session.Buffered then Debounced else Direct
  }

  /**
   * Whichever way the events endpoint routes a message, the answer is split
   * on `|||` exactly when the user's stored mode is short: a buffered message
   * was routed for that very reason, and a message answered at once reads the
   * same mode, or the `long` of a fresh record for a user not yet stored.
   */
  lemma RouteDecidesSplitting(users: map<string, UserRecord>, uid: string, hasImages: bool)
    ensures var mode := if uid in users then users[uid].mode else None;
            var path := PathOf(Session.RouteOf(mode, hasImages));
            var user := if uid in users then users[uid] else StartRecord(path);
            SplitAllowed(path, user) <==> mode.GetOr("long") == "short"
  {
  }

  /**
   * A turn as the bot runs it: the records are loaded, the quota check then
   * loads, charges and saves its own copy, and the turn saves the copy it
   * loaded first, with the charge missing.
   */
  function RespondAsWritten(store: Store, uid: string, path: Path, channel: string, text: string, reply: string,
                         now: Moment, unlimited: bool): (Store, Outcome)
  {
    var user := if uid in store.users then store.users[uid] else StartRecord(path);
    var (q, charged) := CheckAndUsePoints(store.users, uid, user.api.GetOr(DefaultApi), unlimited);
    if q.Refused? then (store.(users := charged), NotEnoughPoints(q.remaining, q.cost))
    else
      var parsed := Parse(reply);
      var st := StoreAll(Stored(ScheduleOf(store.schedules, uid), store.memories), uid, parsed.directives, now.today, now.stamp, AsMatched);
      (Store(store.users[uid := Recorded(user, path, channel, text, reply, now)], store.schedules[uid := st.schedules], st.memories),
       Answered(PlanDelivery(parsed.visible, SplitAllowed(path, user), q.remaining)))
  }

  /** As the bot runs it, a turn never changes the user's usage: the quota is never used up. */
  lemma AsWrittenLosesTheCharge(store: Store, uid: string, path: Path, channel: string, text: string, reply: string,
                                now: Moment, unlimited: bool)
    ensures Lookup(RespondAsWritten(store, uid, path, channel, text, reply, now, unlimited).0.users, uid).pointsUsed
            == Lookup(store.users, uid).pointsUsed
  {
  }

  /** So a limited user who is granted one turn is granted the next one too, and every one after. */
  lemma AsWrittenGrantsForever(store: Store, uid: string, path: Path, channel: string, text: string, reply: string,
                               now: Moment, text2: string, reply2: string, now2: Moment)
    requires RespondAsWritten(store, uid, path, channel, text, reply, now, false).1.Answered?
    ensures var after := RespondAsWritten(store, uid, path, channel, text, reply, now, false).0;
            RespondAsWritten(after, uid, path, channel, text2, reply2, now2, false).1.Answered?
  {
    var after := RespondAsWritten(store, uid, path, channel, text, reply, now, false).0;
    AsWrittenLosesTheCharge(store, uid, path, channel, text, reply, now, false);
    assert uid in after.users;
  }

  /** A turn with the charge kept: the turn's record is saved with the usage the quota check wrote. */
  function Respond(store: Store, uid: string, path: Path, channel: string, text: string, reply: string,
                now: Moment, unlimited: bool): (Store, Outcome)
  {
    var user := if uid in store.users then store.users[uid] else StartRecord(path);
    var (q, charged) := CheckAndUsePoints(store.users, uid, user.api.GetOr(DefaultApi), unlimited);
    if q.Refused? then (store.(users := charged), NotEnoughPoints(q.remaining, q.cost))
    else
      var parsed := Parse(reply);
      var st := StoreAll(Stored(ScheduleOf(store.schedules, uid), store.memories), uid, parsed.directives, now.today, now.stamp, ClockForm);
      var saved := Recorded(user, path, channel, text, reply, now).(pointsUsed := Lookup(charged, uid).pointsUsed);
      (Store(charged[uid := saved], store.schedules[uid := st.schedules], st.memories),
       Answered(PlanDelivery(parsed.visible, SplitAllowed(path, user), q.remaining)))
  }

  /**
   * A turn charges exactly what the quota check charges, so successive turns
   * stay within the daily budget (`RequestsWithinBudget`); a refused turn
   * changes no store; an answered one appends the user's text and the model's
   * full answer to the history, stores the answer's directives, and leaves
   * every other user's record as it was.
   */
  lemma RespondKeepsTheCharge(store: Store, uid: string, path: Path, channel: string, text: string, reply: string,
                           now: Moment, unlimited: bool)
    ensures var user := if uid in store.users then store.users[uid] else StartRecord(path);
            var api := user.api.GetOr(DefaultApi);
            var (q, charged) := CheckAndUsePoints(store.users, uid, api, unlimited);
            var (after, outcome) := Respond(store, uid, path, channel, text, reply, now, unlimited);
            && Lookup(after.users, uid).pointsUsed == Lookup(charged, uid).pointsUsed
            && (outcome.NotEnoughPoints? ==> after == store)
            && (outcome.Answered? ==>
                  && after.users[uid].history == user.history + [Turn("user", text), Turn("assistant", reply)]
                  && var st := StoreAll(Stored(ScheduleOf(store.schedules, uid), store.memories), uid,
                                        Parse(reply).directives, now.today, now.stamp, ClockForm);
                  && after.schedules[uid] == st.schedules
                  && after.memories == st.memories
                  && (forall u :: u != uid ==> ScheduleOf(after.schedules, u) == ScheduleOf(store.schedules, u))
                  && (forall u :: u != uid ==> (u in after.users <==> u in store.users)
                                               && (u in store.users ==> after.users[u] == store.users[u])))
  {
    var user := if uid in store.users then store.users[uid] else StartRecord(path);
    var (q, charged) := CheckAndUsePoints(store.users, uid, user.api.GetOr(DefaultApi), unlimited);
    CheckTouchesOnlyUsage(store.users, uid, user.api.GetOr(DefaultApi), unlimited);
    var (after, outcome) := Respond(store, uid, path, channel, text, reply, now, unlimited);
    if q.Granted? {
      var st := StoreAll(Stored(ScheduleOf(store.schedules, uid), store.memories), uid,
                         Parse(reply).directives, now.today, now.stamp, ClockForm);
      assert after.schedules == store.schedules[uid := st.schedules];
      assert after.users == charged[uid := Recorded(user, path, channel, text, reply, now).(pointsUsed := Lookup(charged, uid).pointsUsed)];
    }
  }

  /**
   * `process_message` / `delayed_process` with the charge kept: check the
   * quota, parse the answer and store its directives, record the turn, plan
   * the delivery.
   */
  method ProcessMessage(store: Store, uid: string, path: Path, channel: string, text: string, reply: string,
                     now: Moment, unlimited: bool) returns (store': Store, outcome: Outcome)
    ensures (store', outcome) == Respond(store, uid, path, channel, text, reply, now, unlimited)
  {
    var user := if uid in store.users then store.users[uid] else StartRecord(path);
    var (q, charged) := CheckAndUsePoints(store.users, uid, user.api.GetOr(DefaultApi), unlimited);
    if q.Refused? {
      return store.(users := charged), NotEnoughPoints(q.remaining, q.cost);
    }
    var splitAllowed := SplitAllowed(path, user);
    if path == Direct {
      user := user.(lastActive := Some(now.seconds), channel := Some(channel));
    }
    var visible, directives, hasHidden := ParseHiddenCommands(reply);
    var schedules, memories := StoreDirectives(store.schedules, store.memories, uid, directives, now.today, now.stamp, ClockForm);
    user := user.(history := user.history + [Turn("user", text), Turn("assistant", reply)]);
    if path == Debounced {
      user := user.(lastActive := Some(now.seconds));
    }
    user := user.(pointsUsed := Lookup(charged, uid).pointsUsed);
    store' := Store(charged[uid := user], schedules, memories);
    outcome := Answered(PlanDelivery(visible, splitAllowed, q.remaining));
  }

  // ------------------------------------------------------------ /reset

  datatype ResetReply = ResetDone | ResetCancelled | ResetAsk

  /** The record `/reset yes` writes: defaults, with the stored channel kept. */
  function ResetRecord(prev: UserRecord): UserRecord {
    UserRecord([], Some(DefaultApi), Some("long"), 0, prev.channel, None)
  }

  /**
   * `/reset` on the command text (already stripped and lower-cased): `yes`
   * resets a stored record and a stored schedule entry, `no` cancels, and
   * anything else asks for confirmation.
   */
  function ResetCommand(store: Store, uid: string, text: string): (ResetReply, Store) {
    if text == "yes" then
      var users := if uid in store.users then store.users[uid := ResetRecord(store.users[uid])] else store.users;
      var schedules := if uid in store.schedules then store.schedules[uid := NoSchedules] else store.schedules;
      (ResetDone, Store(users, schedules, store.memories))
    else if text == "no" then (ResetCancelled, store)
    else (ResetAsk, store)
  }

  /**
   * `/reset yes` empties the history, restores the default model, mode and
   * budget, keeps the channel, keeps every memory and every other user's
   * data, and leaves the user nothing that can fire; doing it twice is doing
   * it once. Any other text changes nothing.
   */
  lemma ResetProperties(store: Store, uid: string, text: string, c: Clock)
    requires ValidClock(c)
    ensures var (reply, after) := ResetCommand(store, uid, text);
            && (text != "yes" ==> after == store)
            && (text == "yes" ==>
                  && after.memories == store.memories
                  && after.users.Keys == store.users.Keys
                  && (uid in store.users ==>
                        && after.users[uid].channel == store.users[uid].channel
                        && after.users[uid].history == []
                        && after.users[uid].pointsUsed == 0
                        && after.users[uid].api == Some(DefaultApi)
                        && after.users[uid].mode == Some("long")
                        && after.users[uid].lastActive == None)
                  && (forall u :: u != uid && u in store.users ==> after.users[u] == store.users[u])
                  && (forall u :: u != uid ==> ScheduleOf(after.schedules, u) == ScheduleOf(store.schedules, u))
                  && ScheduleOf(after.schedules, uid) == NoSchedules
                  && FiringsAt(ScheduleOf(after.schedules, uid), c) == []
                  && ResetCommand(after, uid, text) == (reply, after))
  {
    if text == "yes" {
      var after := ResetCommand(store, uid, text).1;
      assert ScheduleOf(after.schedules, uid) == NoSchedules;
      assert Pad2(0) == "00";
      var again := ResetCommand(after, uid, text).1;
      assert again.users == after.users by {
        if uid in store.users {
          assert ResetRecord(after.users[uid]) == after.users[uid];
        }
      }
      assert again.schedules == after.schedules;
    }
  }

  // ------------------------------------------------------------ the scheduler

  /** A user the scheduler serves: one whose record holds a non-empty channel. */
  predicate HasChannel(u: UserRecord) {
    u.channel.Some? && u.channel.value != ""
  }

  /** The user records the scheduler works from: usage reset first when the clock reads `00:00`. */
  function TickUsers(users: map<string, UserRecord>, c: Clock): map<string, UserRecord>
    requires ValidClock(c)
  {
    if ClockText(c) == "00:00" then ResetPoints(users) else users
  }

  function Served(users: map<string, UserRecord>): set<string> {
    set u | u in users && HasChannel(users[u])
  }

  /** A served user's schedules after the minute: the due reminders gone. */
  function Advanced(s: UserSchedules, c: Clock): UserSchedules
    requires ValidClock(c)
  {
    s.(timed := Pending(s.timed, c))
  }

  /**
   * One pass of `run_scheduler` at clock `c`: the stores it saves and, for
   * each served user, the calls it makes to the model in order.
   */
  function Tick(store: Store, c: Clock): (r: (Store, map<string, seq<Firing>>))
    requires ValidClock(c)
  {
    var users := TickUsers(store.users, c);
    var served := Served(users);
    var schedules := map u | u in store.schedules.Keys + served ::
                       if u in served then Advanced(ScheduleOf(store.schedules, u), c) else store.schedules[u];
    var fired := map u | u in served :: FiringsAt(ScheduleOf(store.schedules, u), c);
    (Store(users, schedules, store.memories), fired)
  }

  /** `run_scheduler`'s body: the midnight reset, then each user with a channel in turn. */
  method SchedulerTick(store: Store, c: Clock) returns (store': Store, fired: map<string, seq<Firing>>)
    requires ValidClock(c)
    ensures (store', fired) == Tick(store, c)
  {
    var users := store.users;
    if ClockText(c) == "00:00" {
      users := MidnightReset(users);
    }
    ghost var served := Served(users);
    ghost var goal := Tick(store, c);
    TickGoal(store, c, users, goal.0.schedules, goal.1);
    var schedules := store.schedules;
    fired := map[];
    var todo := users.Keys;
    while todo != {}
      invariant todo <= users.Keys
      invariant Progress(store.schedules, goal.0.schedules, served, todo, schedules)
      invariant Progress(map[], goal.1, served, todo, fired)
      decreases todo
    {
      var u :| u in todo;
      if HasChannel(users[u]) {
        assert u in served;
        ProgressPending(store.schedules, goal.0.schedules, served, todo, schedules, u);
        var s', f := TickUser(ScheduleOf(schedules, u), c);
        assert s' == goal.0.schedules[u] && f == goal.1[u];
        ProgressServe(store.schedules, goal.0.schedules, served, todo, schedules, u);
        ProgressServe(map[], goal.1, served, todo, fired, u);
        schedules := schedules[u := s'];
        fired := fired[u := f];
      } else {
        ProgressSkip(store.schedules, goal.0.schedules, served, todo, schedules, u);
        ProgressSkip(map[], goal.1, served, todo, fired, u);
      }
      todo := todo - {u};
    }
    ProgressDone(store.schedules, goal.0.schedules, served, schedules);
    ProgressDone(map[], goal.1, served, fired);
    store' := Store(users, schedules, store.memories);
  }

  /** The stores `Tick` describes, key by key. */
  lemma TickGoal(store: Store, c: Clock, users: map<string, UserRecord>,
                 schedules: map<string, UserSchedules>, fired: map<string, seq<Firing>>)
    requires ValidClock(c) && users == TickUsers(store.users, c)
    requires (Store(users, schedules, store.memories), fired) == Tick(store, c)
    ensures var served := Served(users);
            && schedules.Keys == store.schedules.Keys + served
            && fired.Keys == served
            && (forall u :: u in schedules && u !in served ==> schedules[u] == store.schedules[u])
            && (forall u :: u in served ==> schedules[u] == Advanced(ScheduleOf(store.schedules, u), c))
            && (forall u :: u in served ==> fired[u] == FiringsAt(ScheduleOf(store.schedules, u), c))
  {
  }

  /**
   * A map being rebuilt key by key from `base` towards `goal`: the keys of
   * `served` outside `todo` already hold their `goal` value, every other key
   * still holds its `base` value.
   */
  ghost predicate Progress<K, V>(base: map<K, V>, goal: map<K, V>, served: set<K>, todo: set<K>, cur: map<K, V>) {
    && served <= goal.Keys
    && cur.Keys == base.Keys + (served - todo)
    && (forall k :: k in cur ==> cur[k] == if k in served && k !in todo then goal[k] else base[k])
  }

  lemma ProgressPending<K, V>(base: map<K, V>, goal: map<K, V>, served: set<K>, todo: set<K>, cur: map<K, V>, k: K)
    requires Progress(base, goal, served, todo, cur) && k in todo
    ensures (k in cur <==> k in base) && (k in cur ==> cur[k] == base[k])
  {
  }

  lemma ProgressServe<K, V>(base: map<K, V>, goal: map<K, V>, served: set<K>, todo: set<K>, cur: map<K, V>, k: K)
    requires Progress(base, goal, served, todo, cur) && k in todo && k in served
    ensures Progress(base, goal, served, todo - {k}, cur[k := goal[k]])
  {
    assert served - (todo - {k}) == (served - todo) + {k};
  }

  lemma ProgressSkip<K, V>(base: map<K, V>, goal: map<K, V>, served: set<K>, todo: set<K>, cur: map<K, V>, k: K)
    requires Progress(base, goal, served, todo, cur) && k in todo && k !in served
    ensures Progress(base, goal, served, todo - {k}, cur)
  {
    assert served - (todo - {k}) == served - todo;
  }

  lemma ProgressDone<K, V>(base: map<K, V>, goal: map<K, V>, served: set<K>, cur: map<K, V>)
    requires Progress(base, goal, served, {}, cur)
    requires goal.Keys == base.Keys + served
    requires forall k :: k in goal && k !in served ==> goal[k] == base[k]
    ensures cur == goal
  {
    assert cur.Keys == goal.Keys;
  }

  /**
   * The scheduler removes only due reminders: daily messages and special
   * dates are never touched, an unserved user's schedules stay as they were,
   * usage is reset exactly at midnight, and memories are only read.
   */
  lemma TickPreserves(store: Store, c: Clock)
    requires ValidClock(c)
    ensures var (after, fired) := Tick(store, c);
            && after.memories == store.memories
            && (c.hour == 0 && c.minute == 0 ==> after.users == ResetPoints(store.users))
            && (!(c.hour == 0 && c.minute == 0) ==> after.users == store.users)
            && (forall u :: u in store.schedules ==>
                  && u in after.schedules
                  && after.schedules[u].daily == store.schedules[u].daily
                  && after.schedules[u].specialDates == store.schedules[u].specialDates
                  && (after.schedules[u].timed == store.schedules[u].timed
                      || after.schedules[u].timed == Pending(store.schedules[u].timed, c)))
  {
    MidnightText(c);
  }

  /** Running the scheduler twice in the same minute sends no reminder the second time. */
  lemma NoReminderTwiceInAMinute(store: Store, c: Clock)
    requires ValidClock(c)
    ensures var fired2 := Tick(Tick(store, c).0, c).1;
            forall u, k :: u in fired2 && 0 <= k < |fired2[u]| ==> !fired2[u][k].TimedFire?
  {
    var once := Tick(store, c).0;
    var fired2: map<string, seq<Firing>> := Tick(once, c).1;
    forall u | u in fired2 ensures forall k :: 0 <= k < |fired2[u]| ==> !fired2[u][k].TimedFire? {
      ServedStable(store.users, c);
      assert u in Served(TickUsers(store.users, c));
      assert ScheduleOf(once.schedules, u) == Advanced(ScheduleOf(store.schedules, u), c);
      AdvancedFiresNoReminder(ScheduleOf(store.schedules, u), c);
    }
  }

  /** Once the due reminders are gone, what fires in the same minute holds no reminder. */
  lemma AdvancedFiresNoReminder(s: UserSchedules, c: Clock)
    requires ValidClock(c)
    ensures forall k :: 0 <= k < |FiringsAt(Advanced(s, c), c)| ==> !FiringsAt(Advanced(s, c), c)[k].TimedFire?
  {
    var a := Advanced(s, c);
    NothingFiresTwice(s.timed, c);
    assert TimedFires(DueNow(a.timed, c)) == [];
  }

  /** Resetting usage does not change which users the scheduler serves. */
  lemma ServedStable(users: map<string, UserRecord>, c: Clock)
    requires ValidClock(c)
    ensures Served(TickUsers(TickUsers(users, c), c)) == Served(TickUsers(users, c))
  {
  }
}
