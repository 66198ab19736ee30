/**
 * The per-user record the bot keeps (conversation history, chosen model,
 * reply mode, points used today, channel, last activity) and the daily usage
 * quota charged against it (`check_and_use_points` and the midnight reset).
 */
module UserData {
  import opened Wrappers
  import opened History

  const DefaultApi: string := "第三方sonnet"

  /** The points a limited user may spend in a day. */
  const PointsLimit: int := 20

  /**
   * A stored user record. A key the stored dictionary lacks is None (for
   * `api` and `mode`, whose readers supply different defaults) or the
   * value every reader defaults it to (`history` [], `points_used` 0).
   * Timestamps are whole seconds.
   */
  datatype UserRecord = UserRecord(
    history: seq<Turn>,
    api: Option<string>,
    mode: Option<string>,
    pointsUsed: int,
    channel: Option<string>,
    lastActive: Option<int>)

  /** The empty dictionary `check_and_use_points` starts from for an unknown user. */
  const Blank: UserRecord := UserRecord([], None, None, 0, None, None)

  /** The record the store holds for `uid`, or the blank one. */
  function Lookup(users: map<string, UserRecord>, uid: string): UserRecord {
    if uid in users then users[uid] else Blank
  }

  /** What one request to a model costs; a name the bot does not know costs 1. */
  function ApiCost(api: string): (cost: int)
    ensures cost >= 1
  {
    if api == "第三方sonnet" then 1
    else if api == "sonnet" then 4
    else if api == "opus" then 2
    else 1
  }

  /** The verdict of the quota check; an unlimited user is granted with remainder -1. */
  datatype Quota =
    | Granted(remaining: int)
    | Refused(remaining: int, cost: int)

  /**
   * `check_and_use_points` on the stored records: an unlimited user passes
   * and nothing is written; otherwise the request is refused when the points
   * left are fewer than the cost, and else the cost is added to the user's
   * usage and what is left is returned.
   */
  function CheckAndUsePoints(users: map<string, UserRecord>, uid: string, api: string, unlimited: bool): (r: (Quota, map<string, UserRecord>))
    ensures unlimited ==> r == (Granted(-1), users)
    ensures !unlimited ==>
              var used, cost := Lookup(users, uid).pointsUsed, ApiCost(api);
              && (r.0.Refused? <==> PointsLimit - used < cost)
              && (r.0.Refused? ==> r == (Refused(PointsLimit - used, cost), users))
              && (r.0.Granted? ==>
                    && r.1 == users[uid := Lookup(users, uid).(pointsUsed := used + cost)]
                    && r.0.remaining == PointsLimit - r.1[uid].pointsUsed
                    && r.0.remaining >= 0)
  {
    if unlimited then (Granted(-1), users)
    else
      var user := Lookup(users, uid);
      var cost := ApiCost(api);
      var remaining := PointsLimit - user.pointsUsed;
      if remaining < cost then (Refused(remaining, cost), users)
      else
        var charged := user.(pointsUsed := user.pointsUsed + cost);
        (Granted(PointsLimit - charged.pointsUsed), users[uid := charged])
  }

  /** The check only ever writes the asking user's usage: every other record and every other field stays. */
  lemma CheckTouchesOnlyUsage(users: map<string, UserRecord>, uid: string, api: string, unlimited: bool)
    ensures var after := CheckAndUsePoints(users, uid, api, unlimited).1;
            && (forall u :: u != uid ==> (u in after <==> u in users) && (u in users ==> after[u] == users[u]))
            && (uid in after ==> after[uid].(pointsUsed := Lookup(users, uid).pointsUsed) == Lookup(users, uid))
  {
  }

  /** `n` requests in a row by the same limited user to the same model: the store afterwards and how many were granted. */
  function Requests(users: map<string, UserRecord>, uid: string, api: string, n: nat): (r: (map<string, UserRecord>, nat))
    ensures r.1 <= n
    decreases n
  {
    if n == 0 then (users, 0)
    else
      var (q, after) := CheckAndUsePoints(users, uid, api, false);
      var rest := Requests(after, uid, api, n - 1);
      (rest.0, rest.1 + (if q.Granted? then 1 else 0))
  }

  /**
   * The quota is a daily budget: however many requests a user makes, the
   * points charged never exceed what was left, so from a fresh day at most
   * 20 / cost requests are granted.
   */
  lemma {:induction false} RequestsWithinBudget(users: map<string, UserRecord>, uid: string, api: string, n: nat)
    requires Lookup(users, uid).pointsUsed <= PointsLimit
    ensures var (after, granted) := Requests(users, uid, api, n);
            && Lookup(after, uid).pointsUsed == Lookup(users, uid).pointsUsed + granted * ApiCost(api)
            && Lookup(after, uid).pointsUsed <= PointsLimit
    decreases n
  {
    if n > 0 {
      var after := CheckAndUsePoints(users, uid, api, false).1;
      RequestsWithinBudget(after, uid, api, n - 1);
    }
  }

  /** From a fresh day, the number of granted requests is at most the limit divided by the cost. */
  lemma FreshDayGrants(users: map<string, UserRecord>, uid: string, api: string, n: nat)
    requires Lookup(users, uid).pointsUsed == 0
    ensures Requests(users, uid, api, n).1 * ApiCost(api) <= PointsLimit
  {
    RequestsWithinBudget(users, uid, api, n);
  }

  // ------------------------------------------------------------ the midnight reset

  /** Every user's usage back to zero, nothing else touched. */
  function ResetPoints(users: map<string, UserRecord>): map<string, UserRecord> {
    map u | u in users :: users[u].(pointsUsed := 0)
  }

  /** The scheduler's midnight loop: set `points_used` to 0 in each stored record in turn. */
  method MidnightReset(users: map<string, UserRecord>) returns (reset: map<string, UserRecord>)
    ensures reset == ResetPoints(users)
  {
    reset := users;
    var todo := users.Keys;
    while todo != {}
      invariant todo <= users.Keys && reset.Keys == users.Keys
      invariant forall u :: u in users && u in todo ==> reset[u] == users[u]
      invariant forall u :: u in users && u !in todo ==> reset[u] == users[u].(pointsUsed := 0)
      decreases todo
    {
      var u :| u in todo;
      reset := reset[u := reset[u].(pointsUsed := 0)];
      todo := todo - {u};
    }
  }

  /** After the reset every known user has the full budget again and all other fields are as they were. */
  lemma ResetPointsRestoresBudget(users: map<string, UserRecord>, uid: string, api: string)
    requires uid in users
    ensures var after := ResetPoints(users);
            && after.Keys == users.Keys
            && after[uid].(pointsUsed := users[uid].pointsUsed) == users[uid]
            && CheckAndUsePoints(after, uid, api, false).0 == Granted(PointsLimit - ApiCost(api))
  {
    assert ApiCost(api) <= 4;
  }
}
