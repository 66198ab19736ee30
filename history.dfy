/**
 * The conversation history sent to the model and how it is cut down to fit
 * the model's context (`estimate_tokens`, `trim_history_for_api`).
 */
module History {

  /** One stored message of the conversation. */
  datatype Turn = Turn(role: string, content: string)

  /** The characters Python's class `[一-鿿]` matches: CJK unified ideographs. */
  predicate IsCjk(c: char) {
    '\U{4E00}' <= c <= '\U{9FFF}'
  }

  function CjkCount(s: string): (n: nat)
    ensures n <= |s|
  {
    if s == [] then 0 else (if IsCjk(s[0]) then 1 else 0) + CjkCount(s[1..])
  }

  /**
   * `estimate_tokens`: an ideograph counts two thirds of a token and any
   * other character a quarter, rounded down. Python computes
   * `int(cjk / 1.5 + other / 4)`; over 12ths the same number is an integer division.
   */
  function EstimateTokens(s: string): (n: nat)
    ensures s == [] ==> n == 0
  {
    if s == [] then 0 else (8 * CjkCount(s) + 3 * (|s| - CjkCount(s))) / 12
  }

  /** The estimate is the floor of `cjk / 1.5 + other / 4` computed over the reals. */
  lemma EstimateIsFloor(s: string)
    ensures var cjk, other := CjkCount(s) as real, (|s| - CjkCount(s)) as real;
            var exact := cjk / 1.5 + other / 4.0;
            (EstimateTokens(s) as real) <= exact < (EstimateTokens(s) as real) + 1.0
  {
    TwelfthsFloor(CjkCount(s), |s| - CjkCount(s));
  }

  lemma TwelfthsFloor(c: nat, o: nat)
    ensures var n := (8 * c + 3 * o) / 12;
            (n as real) <= (c as real) / 1.5 + (o as real) / 4.0 < (n as real) + 1.0
  {
    var q := 8 * c + 3 * o;
    var n, r := q / 12, q % 12;
    assert q == 12 * n + r && 0 <= r < 12;
    assert (c as real) / 1.5 == (8 * c) as real / 12.0;
    assert (o as real) / 4.0 == (3 * o) as real / 12.0;
    assert (q as real) / 12.0 == (n as real) + (r as real) / 12.0;
  }

  /** The context budget of each model, by the name the bot stores; unknown names get 100000. */
  function TokenLimit(api: string): (limit: nat)
    ensures limit >= 100000
  {
    if api == "第三方sonnet" then 110000
    else if api == "sonnet" then 190000
    else if api == "opus" then 190000
    else 100000
  }

  function TotalTokens(h: seq<Turn>): nat {
    if h == [] then 0 else EstimateTokens(h[0].content) + TotalTokens(h[1..])
  }

  /** The history kept: the oldest turn goes while the estimate is over `limit` and more than two turns are left. */
  function Trim(h: seq<Turn>, limit: nat): seq<Turn> {
    if TotalTokens(h) > limit && |h| > 2 then Trim(h[1..], limit) else h
  }

  /** `trim_history_for_api`: pop the oldest turn while over budget, keeping a running total. */
  method TrimHistoryForApi(history: seq<Turn>, api: string) returns (kept: seq<Turn>)
    ensures kept == Trim(history, TokenLimit(api))
  {
    var maxTokens := TokenLimit(api);
    kept := history;
    var total := TotalTokens(history);
    while total > maxTokens && |kept| > 2
      invariant total == TotalTokens(kept)
      invariant Trim(kept, maxTokens) == Trim(history, maxTokens)
      decreases |kept|
    {
      total := total - EstimateTokens(kept[0].content);
      kept := kept[1..];
    }
  }

  /**
   * Trimming keeps a suffix of the history; it never drops below two turns
   * unless there were fewer to begin with; it drops the oldest `d` turns for
   * the least `d` after which the estimate fits or only two turns are left.
   */
  lemma {:induction false} TrimIsMinimalSuffix(h: seq<Turn>, limit: nat)
    ensures var d := |h| - |Trim(h, limit)|;
            && 0 <= d <= |h| && Trim(h, limit) == h[d..]
            && |Trim(h, limit)| >= (if |h| < 2 then |h| else 2)
            && (forall j :: 0 <= j < d ==> TotalTokens(h[j..]) > limit && |h| - j > 2)
            && (TotalTokens(h[d..]) <= limit || |h| - d <= 2)
    decreases |h|
  {
    if TotalTokens(h) > limit && |h| > 2 {
      TrimIsMinimalSuffix(h[1..], limit);
      var d := |h| - |Trim(h, limit)|;
      assert Trim(h, limit) == Trim(h[1..], limit);
      forall j | 1 <= j < d ensures TotalTokens(h[j..]) > limit && |h| - j > 2 {
        assert h[1..][j - 1..] == h[j..];
      }
      assert h[1..][d - 1..] == h[d..];
    }
  }
}
