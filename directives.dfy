/**
 * The hidden directives the model writes into its replies, and the parser
 * that finds them, records them and strips them from the visible reply
 * (`parse_hidden_commands`). Each of the five regular expressions is replaced
 * by a hand-written matcher for exactly its language, `re.findall` by a
 * left-to-right scan for non-overlapping matches, and the per-kind `for`
 * loops by `ConsumeStage`.
 */
module Directives {
  import opened Wrappers
  import opened Text

  /** The five directive grammars. */
  datatype Grammar = TimedG | DailyG | MemoryForG | MemorySelfG | SpecialDateG

  /** The order in which the parser runs the grammars, each on what the previous ones left. */
  const Order: seq<Grammar> := [TimedG, DailyG, MemoryForG, MemorySelfG, SpecialDateG]

  /**
   * One match: where it starts, the index just past it, and its two captured
   * groups (`second` is empty for the one-argument memory form).
   */
  datatype Hit = Hit(start: nat, end: nat, first: string, second: string)

  /** What a consumed directive asks the bot to do. */
  datatype Directive =
    | Timed(time: string, hint: string)          // [[定时|H:MM|hint]]: a one-shot reminder for today
    | Daily(time: string, topic: string)         // [[每日|H:MM|topic]]: a message every day at that time
    | MemoryFor(user: string, content: string)   // [[记忆|USERID|content]]: a memory for the named user
    | MemorySelf(content: string)                // [[记忆|content]]: a memory for the current user
    | SpecialDate(monthDay: string, desc: string) // [[特殊日期|MM-DD|desc]]: an annual date

  function Opener(g: Grammar): (r: string)
    ensures |r| >= 5 && r[0] == '[' && r[|r| - 1] == '|'
  {
    match g
    case TimedG => "[[定时|"
    case DailyG => "[[每日|"
    case MemoryForG => "[[记忆|"
    case MemorySelfG => "[[记忆|"
    case SpecialDateG => "[[特殊日期|"
  }

  /** The literal a hit stands for, rebuilt the way the bot's f-strings rebuild it before `replace`. */
  function Literal(g: Grammar, h: Hit): (r: string)
    ensures r != []
  {
    if g == MemorySelfG then Opener(g) + h.first + "]]"
    else Opener(g) + h.first + "|" + h.second + "]]"
  }

  function ToDirective(g: Grammar, h: Hit): Directive {
    match g
    case TimedG => Timed(h.first, h.second)
    case DailyG => Daily(h.first, h.second)
    case MemoryForG => MemoryFor(h.first, h.second)
    case MemorySelfG => MemorySelf(h.first)
    case SpecialDateG => SpecialDate(h.first, h.second)
  }

  // ------------------------------------------------------------ character classes

  /** `[A-Z0-9]` */
  predicate IsIdChar(c: char) {
    'A' <= c <= 'Z' || '0' <= c <= '9'
  }

  predicate AllIdChars(s: string) {
    forall k :: 0 <= k < |s| ==> IsIdChar(s[k])
  }

  /**
   * `re.match(r'^[A-Z0-9]+$', c)`: the text is a user id. Python's `$` also
   * matches just before a final newline, so `"U1\n"` counts as one.
   */
  predicate IdLike(c: string) {
    var body := if c != [] && c[|c| - 1] == '\n' then c[..|c| - 1] else c;
    body != [] && AllIdChars(body)
  }

  /** `\d{1,2}:\d{2}` */
  predicate IsClockText(t: string) {
    || (|t| == 4 && IsDigit(t[0]) && t[1] == ':' && IsDigit(t[2]) && IsDigit(t[3]))
    || (|t| == 5 && IsDigit(t[0]) && IsDigit(t[1]) && t[2] == ':' && IsDigit(t[3]) && IsDigit(t[4]))
  }

  /** `\d{2}-\d{2}` */
  predicate IsMonthDayText(t: string) {
    |t| == 5 && IsDigit(t[0]) && IsDigit(t[1]) && t[2] == '-' && IsDigit(t[3]) && IsDigit(t[4])
  }

  /** `c` does not occur in `s[lo..hi]`. */
  predicate Free(s: string, lo: nat, hi: nat, c: char)
    requires lo <= hi <= |s|
  {
    forall k :: lo <= k < hi ==> s[k] != c
  }

  /** `]]` starts at index `k`. */
  predicate ClosesAt(s: string, k: nat) {
    k + 2 <= |s| && s[k] == ']' && s[k + 1] == ']'
  }

  /** What each grammar's first captured group looks like. */
  predicate FirstOk(g: Grammar, t: string) {
    match g
    case TimedG => IsClockText(t)
    case DailyG => IsClockText(t)
    case MemoryForG => t != [] && AllIdChars(t)
    case MemorySelfG => t != [] && '|' !in t
    case SpecialDateG => IsMonthDayText(t)
  }

  /** What each grammar's captured groups look like: the second one is a non-empty line, or absent. */
  predicate WellFormed(g: Grammar, h: Hit) {
    && FirstOk(g, h.first)
    && (if g == MemorySelfG then h.second == [] else h.second != [] && '\n' !in h.second)
  }

  // ------------------------------------------------------------ pieces of a match

  /**
   * `\d{1,2}:\d{2}` at `p`: the index just past it. The hour is greedy, and
   * backtracking cannot help, since after one digit comes either a digit or
   * the colon.
   */
  function ClockEnd(s: string, p: nat): (r: Option<nat>)
    ensures r.Some? ==> p < r.value <= |s| && IsClockText(s[p..r.value])
    ensures p + 5 <= |s| && IsClockText(s[p..p + 5]) ==> r == Some(p + 5)
    ensures p + 4 <= |s| && IsClockText(s[p..p + 4]) ==> r == Some(p + 4)
  {
    if p + 5 <= |s| && IsDigit(s[p]) && IsDigit(s[p + 1]) && s[p + 2] == ':' && IsDigit(s[p + 3]) && IsDigit(s[p + 4]) then
      Some(p + 5)
    else if p + 4 <= |s| && IsDigit(s[p]) && s[p + 1] == ':' && IsDigit(s[p + 2]) && IsDigit(s[p + 3]) then
      Some(p + 4)
    else None
  }

  /** `\d{2}-\d{2}` at `p`: the index just past it. */
  function MonthDayEnd(s: string, p: nat): (r: Option<nat>)
    ensures r.Some? ==> p < r.value <= |s| && IsMonthDayText(s[p..r.value])
    ensures p + 5 <= |s| && IsMonthDayText(s[p..p + 5]) ==> r == Some(p + 5)
  {
    if p + 5 <= |s| && IsDigit(s[p]) && IsDigit(s[p + 1]) && s[p + 2] == '-' && IsDigit(s[p + 3]) && IsDigit(s[p + 4]) then
      Some(p + 5)
    else None
  }

  /** `[A-Z0-9]+` at `p`, greedy: the end of the longest run of id characters. */
  function IdRunEnd(s: string, p: nat): (q: nat)
    requires p <= |s|
    ensures p <= q <= |s| && (forall k :: p <= k < q ==> IsIdChar(s[k])) && (q == |s| || !IsIdChar(s[q]))
    decreases |s| - p
  {
    if p < |s| && IsIdChar(s[p]) then IdRunEnd(s, p + 1) else p
  }

  /**
   * The lazy group `(X+?)\]\]` that starts at `from`, where X is any character
   * except `stop` (`.` excludes a newline, `[^|]` a bar). The scan has reached
   * candidate end `j`; the result is the end of the shortest non-empty group
   * followed by `]]`, and None when every `]]` after `from` lies beyond a `stop`.
   */
  function LazyEnd(s: string, from: nat, j: nat, stop: char): (r: Option<nat>)
    requires from < j <= |s|
    requires Free(s, from, j - 1, stop)
    requires forall k :: from < k < j ==> !ClosesAt(s, k)
    ensures r.Some? ==> from < r.value && ClosesAt(s, r.value) && Free(s, from, r.value, stop)
    ensures r.Some? ==> forall k :: from < k < r.value ==> !ClosesAt(s, k)
    ensures r.None? ==> forall k :: from < k <= |s| && ClosesAt(s, k) ==> !Free(s, from, k, stop)
    decreases |s| - j
  {
    if s[j - 1] == stop then None
    else if ClosesAt(s, j) then Some(j)
    else if j < |s| then LazyEnd(s, from, j + 1, stop)
    else None
  }

  /** The lazy group starting at `from`. */
  function GroupEnd(s: string, from: nat, stop: char): (r: Option<nat>)
    ensures r.Some? ==> from < r.value && ClosesAt(s, r.value) && Free(s, from, r.value, stop)
    ensures r.Some? ==> forall k :: from < k < r.value ==> !ClosesAt(s, k)
    ensures r.None? ==> forall k :: from < k <= |s| && ClosesAt(s, k) ==> !Free(s, from, k, stop)
  {
    if from < |s| then LazyEnd(s, from, from + 1, stop) else None
  }

  lemma LiteralSlices(s: string, i: nat, p: nat, t: nat, e: nat, opener: string)
    requires i <= p <= t < e && e + 2 <= |s|
    requires s[i..p] == opener && s[t] == '|' && s[e] == ']' && s[e + 1] == ']'
    ensures s[i..e + 2] == opener + s[p..t] + "|" + s[t + 1..e] + "]]"
  {
    assert s[e..e + 2] == "]]";
    assert s[t..e + 2] == "|" + s[t + 1..e] + "]]";
    assert s[p..e + 2] == s[p..t] + s[t..e + 2];
    assert s[i..e + 2] == s[i..p] + s[p..e + 2];
  }

  lemma LiteralSlicesSelf(s: string, i: nat, p: nat, e: nat, opener: string)
    requires i <= p < e && e + 2 <= |s|
    requires s[i..p] == opener && s[e] == ']' && s[e + 1] == ']'
    ensures s[i..e + 2] == opener + s[p..e] + "]]"
  {
    assert s[e..e + 2] == "]]";
    assert s[p..e + 2] == s[p..e] + s[e..e + 2];
    assert s[i..e + 2] == s[i..p] + s[p..e + 2];
  }

  /** The two-argument directives: `<opener><first>\|(.+?)\]\]` once the first group ends at `t`. */
  function TailAt(g: Grammar, s: string, i: nat, p: nat, t: nat): (r: Option<Hit>)
    requires g != MemorySelfG && i + |Opener(g)| == p <= t <= |s| && s[i..p] == Opener(g)
    ensures r.Some? ==> r.value.start == i && i < r.value.end <= |s| && s[i..r.value.end] == Literal(g, r.value)
    ensures r.Some? ==> r.value.first == s[p..t] && r.value.second != [] && '\n' !in r.value.second
  {
    if t < |s| && s[t] == '|' then
      match GroupEnd(s, t + 1, '\n')
      case None => None
      case Some(e) =>
        var h := Hit(i, e + 2, s[p..t], s[t + 1..e]);
        LiteralSlices(s, i, p, t, e, Opener(g));
        assert Literal(g, h) == Opener(g) + s[p..t] + "|" + s[t + 1..e] + "]]";
        assert '\n' !in h.second by {
          forall k | 0 <= k < |h.second| ensures h.second[k] != '\n' {
            assert h.second[k] == s[t + 1 + k];
          }
        }
        Some(h)
    else None
  }

  /** The first group of a two-argument directive at `p`: the index just past it. */
  function FirstEnd(g: Grammar, s: string, p: nat): (r: Option<nat>)
    requires g != MemorySelfG && p <= |s|
    ensures r.Some? ==> p <= r.value <= |s| && FirstOk(g, s[p..r.value])
  {
    match g
    case TimedG => ClockEnd(s, p)
    case DailyG => ClockEnd(s, p)
    case MemoryForG =>
      var t := IdRunEnd(s, p);
      if t == p then None else Some(t)
    case SpecialDateG => MonthDayEnd(s, p)
  }

  /** `\[\[记忆\|([^|]+?)\]\]` once its opener ends at `p`. */
  function SelfAt(s: string, i: nat, p: nat): (r: Option<Hit>)
    requires i + |Opener(MemorySelfG)| == p <= |s| && s[i..p] == Opener(MemorySelfG)
    ensures r.Some? ==> r.value.start == i && i < r.value.end <= |s| && s[i..r.value.end] == Literal(MemorySelfG, r.value)
    ensures r.Some? ==> WellFormed(MemorySelfG, r.value)
  {
    match GroupEnd(s, p, '|')
    case None => None
    case Some(e) =>
      LiteralSlicesSelf(s, i, p, e, Opener(MemorySelfG));
      Some(Hit(i, e + 2, s[p..e], ""))
  }

  /** The match of grammar `g` that starts at index `i`, if any (what `re.findall` tries at each position). */
  function MatchAt(g: Grammar, s: string, i: nat): (r: Option<Hit>)
    ensures r.Some? ==> r.value.start == i && i < r.value.end <= |s| && s[i..r.value.end] == Literal(g, r.value)
    ensures r.Some? ==> WellFormed(g, r.value)
  {
    if OpensAt(g, s, i) then AfterOpener(g, s, i, i + |Opener(g)|) else None
  }

  /** Grammar `g`'s opener is written at `i`. */
  predicate OpensAt(g: Grammar, s: string, i: nat) {
    i + |Opener(g)| <= |s| && s[i..i + |Opener(g)|] == Opener(g)
  }

  /** The rest of a match once grammar `g`'s opener has been seen at `i`, ending at `p`. */
  function AfterOpener(g: Grammar, s: string, i: nat, p: nat): (r: Option<Hit>)
    requires i + |Opener(g)| == p <= |s| && s[i..p] == Opener(g)
    ensures r.Some? ==> r.value.start == i && i < r.value.end <= |s| && s[i..r.value.end] == Literal(g, r.value)
    ensures r.Some? ==> WellFormed(g, r.value)
  {
    if g == MemorySelfG then SelfAt(s, i, p)
    else
      match FirstEnd(g, s, p)
      case None => None
      case Some(t) => TailAt(g, s, i, p, t)
  }

  /** The lazy group starting at `from` ends at `e`: the first `]]` after `from`, with no `stop` before it. */
  predicate FirstCloseAt(s: string, from: nat, e: nat, stop: char) {
    from < e && ClosesAt(s, e) && Free(s, from, e, stop) && forall k :: from < k < e ==> !ClosesAt(s, k)
  }

  /** Such a `]]` is what the lazy group finds. */
  lemma GroupEndFinds(s: string, from: nat, e: nat, stop: char)
    requires FirstCloseAt(s, from, e, stop)
    ensures GroupEnd(s, from, stop) == Some(e)
  {
  }

  /** A first group of the grammar's shape followed by a bar is what the first-group matcher finds. */
  lemma FirstEndFinds(g: Grammar, s: string, p: nat, t: nat)
    requires g != MemorySelfG && p <= t < |s| && FirstOk(g, s[p..t]) && s[t] == '|'
    ensures FirstEnd(g, s, p) == Some(t)
  {
    if g == MemoryForG {
      assert forall k :: p <= k < t ==> s[k] == s[p..t][k - p];
      assert !IsIdChar(s[t]);
    } else if g == TimedG || g == DailyG {
      assert s[p..t] == s[p..p + |s[p..t]|];
    }
  }

  /**
   * A two-argument directive is written at `i`: its opener, a first group of
   * the grammar's shape ending at the bar at `t`, and a second group running
   * to the first `]]` after it, at `e`, with no newline before.
   */
  predicate WrittenAt(g: Grammar, s: string, i: nat, t: nat, e: nat) {
    && g != MemorySelfG
    && OpensAt(g, s, i) && i + |Opener(g)| <= t < e && e + 2 <= |s|
    && FirstOk(g, s[i + |Opener(g)|..t]) && s[t] == '|'
    && FirstCloseAt(s, t + 1, e, '\n')
  }

  /** A two-argument directive written at `i` is matched there, with exactly its groups. */
  lemma MatchAtFinds(g: Grammar, s: string, i: nat, t: nat, e: nat)
    requires WrittenAt(g, s, i, t, e)
    ensures MatchAt(g, s, i) == Some(Hit(i, e + 2, s[i + |Opener(g)|..t], s[t + 1..e]))
  {
    WrittenSteps(g, s, i, t, e);
    MatchAtFromSteps(g, s, i, t, e);
  }

  /** What a written directive gives each step of the matcher. */
  lemma WrittenSteps(g: Grammar, s: string, i: nat, t: nat, e: nat)
    requires WrittenAt(g, s, i, t, e)
    ensures g != MemorySelfG && OpensAt(g, s, i) && i + |Opener(g)| <= t < e && e + 2 <= |s| && s[t] == '|'
    ensures FirstEnd(g, s, i + |Opener(g)|) == Some(t) && GroupEnd(s, t + 1, '\n') == Some(e)
  {
    FirstEndFinds(g, s, i + |Opener(g)|, t);
    GroupEndFinds(s, t + 1, e, '\n');
  }

  /** The matcher's steps succeed in turn: the opener, the first group up to `t`, the lazy group up to `e`. */
  lemma MatchAtFromSteps(g: Grammar, s: string, i: nat, t: nat, e: nat)
    requires g != MemorySelfG && OpensAt(g, s, i) && i + |Opener(g)| <= t < e && e + 2 <= |s| && s[t] == '|'
    requires FirstEnd(g, s, i + |Opener(g)|) == Some(t) && GroupEnd(s, t + 1, '\n') == Some(e)
    ensures MatchAt(g, s, i) == Some(Hit(i, e + 2, s[i + |Opener(g)|..t], s[t + 1..e]))
  {
    var p := i + |Opener(g)|;
    MatchAtOpens(g, s, i);
    AfterOpenerTail(g, s, i, p, t);
    TailAtFinds(g, s, i, p, t, e);
  }

  /** Past a written opener, the match is what follows the opener. */
  lemma MatchAtOpens(g: Grammar, s: string, i: nat)
    requires OpensAt(g, s, i)
    ensures MatchAt(g, s, i) == AfterOpener(g, s, i, i + |Opener(g)|)
  {
  }

  /** Past the opener of a two-argument grammar, once the first group ends at `t`, the match is the tail from `t`. */
  lemma AfterOpenerTail(g: Grammar, s: string, i: nat, p: nat, t: nat)
    requires g != MemorySelfG && i + |Opener(g)| == p <= |s| && s[i..p] == Opener(g) && FirstEnd(g, s, p) == Some(t)
    ensures AfterOpener(g, s, i, p) == TailAt(g, s, i, p, t)
  {
  }

  /** A bar at `t` and a lazy group ending at `e` give the tail's hit. */
  lemma TailAtFinds(g: Grammar, s: string, i: nat, p: nat, t: nat, e: nat)
    requires g != MemorySelfG && i + |Opener(g)| == p <= t < e && e + 2 <= |s| && s[i..p] == Opener(g)
    requires s[t] == '|' && GroupEnd(s, t + 1, '\n') == Some(e)
    ensures TailAt(g, s, i, p, t) == Some(Hit(i, e + 2, s[p..t], s[t + 1..e]))
  {
  }

  /** A one-argument memory written at `i`, its group running to the first `]]` at `e` with no bar before, is matched there. */
  lemma SelfMatchAtFinds(s: string, i: nat, e: nat)
    requires OpensAt(MemorySelfG, s, i)
    requires FirstCloseAt(s, i + |Opener(MemorySelfG)|, e, '|')
    ensures MatchAt(MemorySelfG, s, i) == Some(Hit(i, e + 2, s[i + |Opener(MemorySelfG)|..e], ""))
  {
    var p := i + |Opener(MemorySelfG)|;
    GroupEndFinds(s, p, e, '|');
    assert AfterOpener(MemorySelfG, s, i, p) == SelfAt(s, i, p);
  }

  /**
   * `re.findall` for grammar `g` from index `pos`: the matches found scanning
   * left to right, resuming after each match.
   */
  function FindAll(g: Grammar, s: string, pos: nat): (hits: seq<Hit>)
    decreases |s| - pos
  {
    if pos >= |s| then []
    else
      match MatchAt(g, s, pos)
      case Some(h) => [h] + FindAll(g, s, h.end)
      case None => FindAll(g, s, pos + 1)
  }

  /**
   * What `findall` returns from `pos` on: well-formed matches, in text order and
   * without overlap, each one's rebuilt literal occurring in the text where it was found.
   */
  predicate HitsFrom(g: Grammar, s: string, pos: nat, hits: seq<Hit>) {
    && (forall k :: 0 <= k < |hits| ==> WellFormed(g, hits[k]))
    && (forall k :: 0 <= k < |hits| ==> pos <= hits[k].start < hits[k].end <= |s|)
    && (forall k :: 0 <= k < |hits| ==> OccursAt(s, Literal(g, hits[k]), hits[k].start))
    && (forall k :: 0 <= k < |hits| - 1 ==> hits[k].end <= hits[k + 1].start)
  }

  lemma HitsFromCons(g: Grammar, s: string, pos: nat, h: Hit, rest: seq<Hit>)
    requires WellFormed(g, h) && pos <= h.start < h.end <= |s| && OccursAt(s, Literal(g, h), h.start)
    requires HitsFrom(g, s, h.end, rest)
    ensures HitsFrom(g, s, pos, [h] + rest)
  {
    var hits := [h] + rest;
    forall k | 1 <= k < |hits|
      ensures WellFormed(g, hits[k]) && pos <= hits[k].start < hits[k].end <= |s|
      ensures OccursAt(s, Literal(g, hits[k]), hits[k].start)
    {
      assert hits[k] == rest[k - 1];
    }
    forall k | 0 <= k < |hits| - 1 ensures hits[k].end <= hits[k + 1].start {
      if k > 0 {
        assert hits[k] == rest[k - 1] && hits[k + 1] == rest[k];
      }
    }
  }

  lemma HitsFromEarlier(g: Grammar, s: string, pos: nat, hits: seq<Hit>)
    requires HitsFrom(g, s, pos + 1, hits)
    ensures HitsFrom(g, s, pos, hits)
  {
  }

  lemma {:induction false} FindAllHits(g: Grammar, s: string, pos: nat)
    ensures HitsFrom(g, s, pos, FindAll(g, s, pos))
    decreases |s| - pos
  {
    if pos < |s| {
      var m := MatchAt(g, s, pos);
      if m.Some? {
        var h := m.value;
        assert s[h.start..h.end] == Literal(g, h);
        assert OccursAt(s, Literal(g, h), h.start);
        FindAllHits(g, s, h.end);
        assert FindAll(g, s, pos) == [h] + FindAll(g, s, h.end);
        HitsFromCons(g, s, pos, h, FindAll(g, s, h.end));
      } else {
        FindAllHits(g, s, pos + 1);
        assert FindAll(g, s, pos) == FindAll(g, s, pos + 1);
        HitsFromEarlier(g, s, pos, FindAll(g, s, pos + 1));
      }
    }
  }

  /** Every hit `findall` returns is the match the grammar makes at its start. */
  lemma {:induction false} FindAllMatches(g: Grammar, s: string, pos: nat)
    ensures forall h :: h in FindAll(g, s, pos) ==> MatchAt(g, s, h.start) == Some(h)
    decreases |s| - pos
  {
    if pos < |s| {
      var m := MatchAt(g, s, pos);
      if m.Some? {
        FindAllMatches(g, s, m.value.end);
      } else {
        FindAllMatches(g, s, pos + 1);
      }
    }
  }

  /**
   * `findall` misses nothing: a match at any position `j` from `pos` on that
   * lies inside no hit it returns is among the hits.
   */
  lemma {:induction false} FindAllMissesNothing(g: Grammar, s: string, pos: nat, j: nat)
    requires pos <= j && MatchAt(g, s, j).Some?
    requires forall h :: h in FindAll(g, s, pos) ==> !(h.start < j < h.end)
    ensures MatchAt(g, s, j).value in FindAll(g, s, pos)
    decreases |s| - pos
  {
    var m := MatchAt(g, s, pos);
    if pos < j {
      if m.Some? {
        assert m.value in FindAll(g, s, pos);
        FindAllMissesNothing(g, s, m.value.end, j);
      } else {
        FindAllMissesNothing(g, s, pos + 1, j);
      }
    }
  }

  // ------------------------------------------------------------ consuming matches

  /** The one-argument memory whose content is a user id is neither recorded nor removed. */
  predicate Skipped(g: Grammar, h: Hit) {
    g == MemorySelfG && IdLike(h.first)
  }

  /**
   * The effect of one grammar's `for` loop over its matches: each match not
   * skipped becomes a directive, and every occurrence of its literal is
   * removed from the text (`str.replace`), one after the other.
   */
  function Consume(g: Grammar, text: string, hits: seq<Hit>): (r: (string, seq<Directive>))
    decreases |hits|
  {
    if hits == [] then (text, [])
    else if Skipped(g, hits[0]) then Consume(g, text, hits[1..])
    else
      var rest := Consume(g, RemoveAll(text, Literal(g, hits[0])), hits[1..]);
      (rest.0, [ToDirective(g, hits[0])] + rest.1)
  }

  /** One grammar's pass: find its matches in the current text, then consume them. */
  function Stage(g: Grammar, text: string): (string, seq<Directive>) {
    Consume(g, text, FindAll(g, text, 0))
  }

  /** The passes in `gs`, each on the text the previous one left; directives in pass order. */
  function Stages(text: string, gs: seq<Grammar>): (r: (string, seq<Directive>))
    decreases |gs|
  {
    if gs == [] then (text, [])
    else
      var first := Stage(gs[0], text);
      var rest := Stages(first.0, gs[1..]);
      (rest.0, first.1 + rest.1)
  }

  /** What the parser returns: the reply the user sees and the directives it consumed. */
  datatype Parsed = Parsed(visible: string, directives: seq<Directive>)

  /** The parser as a function: all five passes, then runs of blank lines collapsed and the ends stripped. */
  function Parse(reply: string): Parsed {
    var r := Stages(reply, Order);
    Parsed(Strip(CollapseNewlines(r.0)), r.1)
  }

  // ------------------------------------------------------------ the parser

  /** One of the parser's `for` loops: consume grammar `g`'s matches in `text0`, noting whether any was consumed. */
  method ConsumeStage(g: Grammar, text0: string, hidden0: bool) returns (text: string, found: seq<Directive>, hidden: bool)
    ensures (text, found) == Stage(g, text0)
    ensures hidden <==> hidden0 || found != []
  {
    var hits := FindAll(g, text0, 0);
    ghost var goal := Consume(g, text0, hits);
    assert goal == Stage(g, text0);
    text, found, hidden := text0, [], hidden0;
    for k := 0 to |hits|
      invariant Consume(g, text, hits[k..]).0 == goal.0
      invariant found + Consume(g, text, hits[k..]).1 == goal.1
      invariant hidden <==> hidden0 || found != []
    {
      var h := hits[k];
      ConsumeStep(g, text, hits, k, found);
      if !Skipped(g, h) {
        found, text, hidden := found + [ToDirective(g, h)], RemoveAll(text, Literal(g, h)), true;
      }
    }
    assert hits[|hits|..] == [];
    assert Consume(g, text, []) == (text, []);
    assert found + [] == found;
  }

  /** One step of a pass's loop: a skipped match changes nothing, any other is recorded after `done` and removed. */
  lemma ConsumeStep(g: Grammar, text: string, hits: seq<Hit>, k: nat, done: seq<Directive>)
    requires k < |hits|
    ensures Skipped(g, hits[k]) ==> Consume(g, text, hits[k..]) == Consume(g, text, hits[k + 1..])
    ensures !Skipped(g, hits[k]) ==>
              var rest := Consume(g, RemoveAll(text, Literal(g, hits[k])), hits[k + 1..]);
              && rest.0 == Consume(g, text, hits[k..]).0
              && (done + [ToDirective(g, hits[k])]) + rest.1 == done + Consume(g, text, hits[k..]).1
  {
    assert hits[k..][0] == hits[k] && hits[k..][1..] == hits[k + 1..];
    if !Skipped(g, hits[k]) {
      var rest := Consume(g, RemoveAll(text, Literal(g, hits[k])), hits[k + 1..]);
      assert (done + [ToDirective(g, hits[k])]) + rest.1 == done + ([ToDirective(g, hits[k])] + rest.1);
    }
  }

  /**
   * `parse_hidden_commands` without its stores: returns the visible reply,
   * the directives in the order the bot acts on them, and whether any
   * hidden directive was consumed. The bot's five `for` loops differ only
   * in their grammar, so they are one loop over `Order` here.
   */
  method ParseHiddenCommands(reply: string) returns (visible: string, directives: seq<Directive>, hasHidden: bool)
    ensures Parsed(visible, directives) == Parse(reply)
    ensures hasHidden <==> directives != []
  {
    var text := reply;
    directives, hasHidden := [], false;
    for i := 0 to |Order|
      invariant Stages(text, Order[i..]).0 == Stages(reply, Order).0
      invariant directives + Stages(text, Order[i..]).1 == Stages(reply, Order).1
      invariant hasHidden <==> directives != []
    {
      var next, found;
      next, found, hasHidden := ConsumeStage(Order[i], text, hasHidden);
      StagesStep(text, Order[i..], directives, next, found);
      text, directives := next, directives + found;
    }
    assert Order[|Order|..] == [];
    visible := Strip(CollapseNewlines(text));
  }

  /** One pass of the parser's loop: its text and directives, then the passes still to come. */
  lemma StagesStep(text: string, gs: seq<Grammar>, done: seq<Directive>, next: string, found: seq<Directive>)
    requires gs != [] && (next, found) == Stage(gs[0], text)
    ensures Stages(next, gs[1..]).0 == Stages(text, gs).0
    ensures (done + found) + Stages(next, gs[1..]).1 == done + Stages(text, gs).1
  {
    assert (done + found) + Stages(next, gs[1..]).1 == done + (found + Stages(next, gs[1..]).1);
  }

  // ------------------------------------------------------------ properties

  /** The visible reply holds no run of three newlines and starts and ends with no whitespace. */
  lemma VisibleIsClean(reply: string)
    ensures NoTripleNewline(Parse(reply).visible)
    ensures IsStripped(Parse(reply).visible)
  {
    var r := Stages(reply, Order);
    assert Parse(reply).visible == Strip(CollapseNewlines(r.0));
    CollapsedAndStrippedIsClean(r.0);
  }

  /**
   * One directive per match, not per distinct literal: a directive written
   * twice is recorded twice even though the first `replace` already removed
   * both copies from the text.
   */
  lemma {:induction false} ConsumeCountsEveryMatch(g: Grammar, text: string, hits: seq<Hit>)
    requires g != MemorySelfG
    ensures |Consume(g, text, hits).1| == |hits|
    decreases |hits|
  {
    if hits != [] {
      ConsumeCountsEveryMatch(g, RemoveAll(text, Literal(g, hits[0])), hits[1..]);
    }
  }

  lemma StageCountsEveryMatch(g: Grammar, text: string)
    requires g != MemorySelfG
    ensures |Stage(g, text).1| == |FindAll(g, text, 0)|
  {
    ConsumeCountsEveryMatch(g, text, FindAll(g, text, 0));
  }

  /** Matches that are all skipped leave the text and the directives untouched. */
  lemma {:induction false} SkippedMatchesLeaveText(g: Grammar, text: string, hits: seq<Hit>)
    requires forall k :: 0 <= k < |hits| ==> Skipped(g, hits[k])
    ensures Consume(g, text, hits) == (text, [])
    decreases |hits|
  {
    if hits != [] {
      SkippedMatchesLeaveText(g, text, hits[1..]);
    }
  }

  /** Every directive a pass produces comes from a match that is not skipped, in match order. */
  lemma {:induction false} ConsumeProducesMatches(g: Grammar, text: string, hits: seq<Hit>)
    ensures forall d :: d in Consume(g, text, hits).1 ==>
              exists k :: 0 <= k < |hits| && !Skipped(g, hits[k]) && d == ToDirective(g, hits[k])
    decreases |hits|
  {
    if hits != [] {
      var next := if Skipped(g, hits[0]) then text else RemoveAll(text, Literal(g, hits[0]));
      ConsumeProducesMatches(g, next, hits[1..]);
      forall d | d in Consume(g, next, hits[1..]).1
        ensures exists k :: 0 <= k < |hits| && !Skipped(g, hits[k]) && d == ToDirective(g, hits[k])
      {
        var k :| 0 <= k < |hits[1..]| && !Skipped(g, hits[1..][k]) && d == ToDirective(g, hits[1..][k]);
        assert hits[1..][k] == hits[k + 1];
      }
    }
  }

  /** Every match a pass consumes is recorded as a directive, unless it is skipped. */
  lemma {:induction false} ConsumeRecordsEveryHit(g: Grammar, text: string, hits: seq<Hit>)
    ensures forall h :: h in hits && !Skipped(g, h) ==> ToDirective(g, h) in Consume(g, text, hits).1
    decreases |hits|
  {
    if hits != [] {
      var next := if Skipped(g, hits[0]) then text else RemoveAll(text, Literal(g, hits[0]));
      ConsumeRecordsEveryHit(g, next, hits[1..]);
      assert forall h :: h in hits ==> h == hits[0] || h in hits[1..];
    }
  }

  /**
   * A pass records every match of its grammar in the text it is given,
   * except a skipped one-argument memory and a match that starts inside an
   * earlier one.
   */
  lemma StageRecordsEveryMatch(g: Grammar, text: string, j: nat, m: Hit)
    requires MatchAt(g, text, j) == Some(m) && !Skipped(g, m)
    requires forall h :: h in FindAll(g, text, 0) ==> !(h.start < j < h.end)
    ensures ToDirective(g, m) in Stage(g, text).1
  {
    FindAllMissesNothing(g, text, 0, j);
    ConsumeRecordsEveryHit(g, text, FindAll(g, text, 0));
  }

  /**
   * The reminder pass runs first, on the reply itself: a reminder directive
   * written at `i` (bar at `t`, closing `]]` at `e`) that starts inside no
   * earlier reminder match is among the parsed directives.
   */
  lemma ReminderIsParsed(reply: string, i: nat, t: nat, e: nat)
    requires WrittenAt(TimedG, reply, i, t, e)
    requires forall h :: h in FindAll(TimedG, reply, 0) ==> !(h.start < i < h.end)
    ensures Timed(reply[i + |Opener(TimedG)|..t], reply[t + 1..e]) in Parse(reply).directives
  {
    var h := Hit(i, e + 2, reply[i + |Opener(TimedG)|..t], reply[t + 1..e]);
    MatchAtFinds(TimedG, reply, i, t, e);
    StageRecordsEveryMatch(TimedG, reply, i, h);
    ReminderStageKept(reply, ToDirective(TimedG, h));
  }

  /** What the reminder pass records is among the parsed directives. */
  lemma ReminderStageKept(reply: string, d: Directive)
    requires d in Stage(TimedG, reply).1
    ensures d in Parse(reply).directives
  {
    assert Order[0] == TimedG;
  }

  /** The shape of a directive the parser can return. */
  predicate DirectiveShape(d: Directive) {
    match d
    case Timed(time, hint) => IsClockText(time) && hint != [] && '\n' !in hint
    case Daily(time, topic) => IsClockText(time) && topic != [] && '\n' !in topic
    case MemoryFor(user, content) => user != [] && AllIdChars(user) && content != [] && '\n' !in content
    case MemorySelf(content) => content != [] && '|' !in content && !IdLike(content)
    case SpecialDate(monthDay, desc) => IsMonthDayText(monthDay) && desc != [] && '\n' !in desc
  }

  lemma HitShape(g: Grammar, h: Hit)
    requires WellFormed(g, h) && !Skipped(g, h)
    ensures DirectiveShape(ToDirective(g, h))
  {
  }

  lemma StageShapes(g: Grammar, text: string)
    ensures forall d :: d in Stage(g, text).1 ==> DirectiveShape(d)
  {
    var hits := FindAll(g, text, 0);
    FindAllHits(g, text, 0);
    ConsumeProducesMatches(g, text, hits);
    forall d | d in Stage(g, text).1 ensures DirectiveShape(d) {
      var k :| 0 <= k < |hits| && !Skipped(g, hits[k]) && d == ToDirective(g, hits[k]);
      assert WellFormed(g, hits[k]);
      HitShape(g, hits[k]);
    }
  }

  lemma {:induction false} StagesShapes(text: string, gs: seq<Grammar>)
    ensures forall d :: d in Stages(text, gs).1 ==> DirectiveShape(d)
    decreases |gs|
  {
    if gs != [] {
      StageShapes(gs[0], text);
      StagesShapes(Stage(gs[0], text).0, gs[1..]);
    }
  }

  /**
   * Every directive the parser returns has its grammar's shape: times are
   * `H:MM` or `HH:MM` as written (not padded), dates `MM-DD`, user ids upper
   * case letters and digits, texts non-empty; a one-argument memory is never
   * id-shaped.
   */
  lemma ParsedDirectivesWellShaped(reply: string)
    ensures forall d :: d in Parse(reply).directives ==> DirectiveShape(d)
  {
    StagesShapes(reply, Order);
  }
}
