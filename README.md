# A verified model of the Slack companion bot's rules

The bot (`main.py`) answers Slack users with a language model and keeps
three stores: user records, schedules and memories. Around its network,
storage and model calls sit small, deterministic rules, and this project
models them in Dafny:

- **Directive parser.** `parse_hidden_commands` scans the model's answer for
  the five bracketed directives: one-shot reminder `定时`, daily message
  `每日`, memory for a named user and memory for the current user `记忆`,
  and special date `特殊日期`. It records each match and cuts every
  occurrence of the matched literal out of the text. It then collapses runs
  of three or more newlines and strips the ends.
- **Memory list.** Each user has a list bounded by total characters.
  `add_memory` evicts from the front. `delete_memory` takes a 1-based index.
  `format_memories` builds the listing. The `/memory` command is modelled.
- **Token estimate and history trimming.** `estimate_tokens` and
  `trim_history_for_api`.
- **Daily points quota.** `check_and_use_points` and the midnight reset.
- **Scheduler.** One-shot reminders fire and are removed, daily messages
  fire and stay, and special dates fire only at midnight. There is also
  the per-minute pass over all users.
- **Events endpoint state.** Event-id de-duplication and the short-mode
  message buffer.
- **Reply delivery.** The plan: delete the placeholder, split on `|||`, or
  append the points left.
- **A user's whole turn.** `process_message` / `delayed_process` over the
  three stores, and the `/reset` command.

The modules follow those pieces:

- `Text`: the Python string operations the bot uses.
- `Directives`: the parser.
- `Memory`, `History`, `UserData`, `Schedules`, `Delivery`, `Session`: the
  pieces above.
- `Bot`: the flows over all three stores. `Bot.RespondAsWritten` is a
  turn as the bot runs it: it loses the quota charge and stores directive
  times exactly as matched. `Bot.Respond` and `Bot.ProcessMessage` are the
  corrected turn of "## Findings".

Code that loops in the source is written as a Dafny method with a `while`
or `for` loop. Each such method is proved equal to a specification
function, and the properties are lemmas about that function. The
in-process globals `processed_events` and `pending_messages` are classes
whose methods update their field.

The model's answer, the clock and the unlimited-user verdict are
parameters. The clock is a `Clock` value (year, month, day, hour, minute)
or preformatted text. A stored user record's missing keys are `None` or
the default its readers use.

## Model

| member | source | states |
|---|---|---|
| Text.Strip | main.py:442 | `str.strip()`: the result has no whitespace at either end |
| Text.StripEmptyIff | main.py:585 | `not s.strip()` holds exactly when every character of `s` is whitespace |
| Text.StripIsSlice | main.py:442 | what `strip()` keeps is one contiguous slice of the text with only whitespace cut on each side |
| Text.StripIdempotent | main.py:442 | stripping twice is stripping once |
| Text.CollapseNewlines | main.py:442 | `re.sub(r'\n{3,}', '\n\n', s)` leaves no run of three newlines and keeps a non-newline first character |
| Text.CollapseNewlinesKeepsClean | main.py:442 | text with no run of three newlines is unchanged by the substitution |
| Text.CollapseNewlinesIdempotent | main.py:442 | the substitution applied twice is the substitution applied once |
| Text.CollapseNewlinesAroundChar | main.py:442 | every character other than a newline is kept, and the text before it and after it are rewritten apart |
| Text.CollapseNewlinesRun | main.py:442 | a whole run of `k` newlines becomes two when `k >= 3` and is kept unchanged otherwise |
| Text.CollapsedAndStrippedIsClean | main.py:442 | collapsing then stripping gives text with no run of three newlines and no whitespace at the ends |
| Text.JoinSplit | main.py:588 | `sep.join(s.split(sep)) == s`: split loses nothing |
| Text.SplitPiecesAvoidSep | main.py:588 | no piece of `s.split(sep)` contains `sep` |
| Text.SplitJoinChar | main.py:600 | joining newline-free lines with a newline and splitting again gives the lines back |
| Text.RemoveAllIsSplitConcat | main.py:410 | `s.replace(p, "")` is the pieces of `s.split(p)` concatenated |
| Text.RemoveAllAbsent | main.py:410 | replacing a pattern the text does not contain changes nothing |
| Text.RemovalCanSplice | main.py:410 | `"aabb".replace("ab", "")` is `"ab"`, which still contains the pattern |
| Text.ParseIntRoundTrip | main.py:791 | `int(str(i)) == i` for every integer |
| Text.IntToStringStripped | main.py:593 | `str(i)` has no whitespace at its ends |
| Text.Pad2Injective | main.py:864 | the two-digit `%H`/`%M` fields determine their numbers |
| Directives.ClockEnd | main.py:403 | a match of `\d{1,2}:\d{2}` at a position ends inside the text and spans clock text, and clock text at the position is always found, the two-digit hour first |
| Directives.MonthDayEnd | main.py:435 | a match of `\d{2}-\d{2}` spans month-day text, and month-day text at the position is always found |
| Directives.IdRunEnd | main.py:422 | `[A-Z0-9]+` takes the longest run of id characters |
| Directives.GroupEnd | main.py:403 | a lazy group (`.+?`, or any run without a bar) ends at the first `]]` with no stop character before it, and no such end exists when it returns nothing |
| Directives.MatchAt | main.py:403-435 | a match found at `i` starts at `i`, spans exactly the literal the f-string rebuilds, and has well-formed groups |
| Directives.FirstEndFinds | main.py:403-435 | a first group of the grammar's shape followed by `|` is exactly what the first-group matcher returns |
| Directives.GroupEndFinds | main.py:403 | the first `]]` after the group's start with no stop character before it is where the lazy group ends |
| Directives.MatchAtFinds | main.py:403-435 | a two-argument directive written at `i` (opener, first group of its shape, `|`, then text up to the first `]]` with no newline) is matched at `i` with exactly its two groups |
| Directives.SelfMatchAtFinds | main.py:428 | a one-argument memory written at `i` (opener, then text up to the first `]]` with no bar) is matched at `i` with exactly its content |
| Directives.FindAllMatches | main.py:403-435 | every hit `re.findall` returns is the grammar's match at its start |
| Directives.FindAllMissesNothing | main.py:403-435 | `re.findall` misses no match: one at a position inside no returned hit is among the hits |
| Directives.FindAllHits | main.py:403-435 | `re.findall` yields well-formed, left-to-right, non-overlapping matches, each one an occurrence of its literal |
| Directives.ConsumeStage | main.py:403-439 | one `for` loop over a grammar's matches computes that grammar's pass and sets `has_hidden` exactly when a directive was recorded |
| Directives.ParseHiddenCommands | main.py:395-444 | the parser returns the visible reply and directives of `Parse`, and `has_hidden` is true iff at least one directive was consumed |
| Directives.VisibleIsClean | main.py:442 | the visible reply has no run of three newlines and no whitespace at its ends |
| Directives.ConsumeCountsEveryMatch | main.py:403-426 | a two-argument grammar records one directive per match, even when an earlier `replace` already removed that literal |
| Directives.StageCountsEveryMatch | main.py:403-439 | a two-argument pass records exactly as many directives as `findall` found matches |
| Directives.SkippedMatchesLeaveText | main.py:428-433 | one-argument memories whose content is `[A-Z0-9]+` are neither recorded nor removed from the text |
| Directives.ConsumeRecordsEveryHit | main.py:403-439 | every match a pass consumes that is not skipped becomes a directive |
| Directives.StageRecordsEveryMatch | main.py:403-439 | a pass records every match of its grammar in its text, except skipped one-argument memories and matches starting inside an earlier one |
| Directives.ReminderIsParsed | main.py:403-411 | a reminder directive written in the reply, starting inside no earlier reminder match, is among the parsed directives with its time and hint |
| Directives.ConsumeProducesMatches | main.py:403-439 | every directive recorded comes from a match that is not skipped |
| Directives.StageShapes | main.py:403-439 | every directive of one pass has its grammar's shape |
| Directives.StagesShapes | main.py:403-439 | every directive of a sequence of passes has its grammar's shape |
| Directives.ParsedDirectivesWellShaped | main.py:403-439 | every directive the parser returns has a clock time, an id user, a bar-free content or an `MM-DD` date, and a newline-free non-empty second field |
| Memory.AddMemory | main.py:176-188 | the loop that pops the oldest entry while the total would overflow, then appends, saves `Admit` |
| Memory.EvictIsMinimalSuffix | main.py:180-182 | eviction keeps a suffix, dropping the fewest oldest entries after which the new content fits, or all of them |
| Memory.AdmitProperties | main.py:176-188 | the new entry is last after a suffix of the old list; nothing is evicted when there is room; the total stays within 2000 when the content alone fits; longer content leaves only itself |
| Memory.TotalCharsAppend | main.py:178 | the character total of a concatenation is the sum of the totals |
| Memory.DeleteMemory | main.py:190-196 | an index in 1..len removes exactly entry `index-1`, keeps the others in order and returns its content; any other index returns None and changes nothing |
| Memory.MemoryLines | main.py:205-211 | one line per entry in list order, `"{i}. content"` or `"• content"` |
| Memory.FormatMemories | main.py:201-212 | the loop that appends one line per entry then joins computes `Listing` |
| Memory.ListingEmptyIff | main.py:201-212 | the listing is `""` exactly when there are no memories |
| Memory.ListingLines | main.py:201-212 | for newline-free contents, splitting the listing at newlines gives the numbered lines in order |
| Memory.MemoryCommandChanges | main.py:767-800 | only `clear yes` and an in-range `delete N` change the memories, and a reported deletion removed entry N with the content shown |
| Memory.DeleteByListedNumber | main.py:789-796 | `/memory delete N` with N as the listing numbers it removes entry N and reports its content |
| History.EstimateTokens | main.py:245-250 | the estimate of empty text is 0 |
| History.EstimateIsFloor | main.py:245-250 | the integer estimate is the floor of `cjk/1.5 + other/4` over the reals |
| History.TrimHistoryForApi | main.py:252-261 | the loop that pops the oldest turn with a running total computes `Trim` |
| History.TrimIsMinimalSuffix | main.py:252-261 | trimming keeps a suffix, never below two turns unless fewer were given, and stops at the first point where the estimate fits or two turns remain |
| UserData.ApiCost | main.py:28-50 | every request costs at least one point |
| UserData.CheckAndUsePoints | main.py:297-314 | an unlimited user passes with -1 and nothing written; otherwise refusal happens iff `20 - used < cost` and changes nothing, and a grant adds exactly the cost and returns `20 - used' >= 0` |
| UserData.CheckTouchesOnlyUsage | main.py:297-314 | the check writes only the asking user's usage |
| UserData.RequestsWithinBudget | main.py:297-314 | over any number of requests the usage grows by exactly the points granted and never exceeds 20 |
| UserData.FreshDayGrants | main.py:297-314 | from a fresh day, granted requests times the cost is at most 20 |
| UserData.MidnightReset | main.py:872-876 | the loop over all records computes `ResetPoints` |
| UserData.ResetPointsRestoresBudget | main.py:872-876 | after the reset every user keeps every other field and the next check grants with `20 - cost` left |
| Schedules.ClockText | main.py:864 | `%H:%M` is five characters with `:` in the middle |
| Schedules.MidnightText | main.py:872 | the clock reads `"00:00"` exactly at hour 0, minute 0 |
| Schedules.ClockTextInjective | main.py:864 | clock text determines hour and minute |
| Schedules.StoredTime | main.py:405-409 | with `AsMatched`, as the bot does, the time is stored exactly as matched; with `ClockForm`, the correction in Findings, a matched `H:MM` or `HH:MM` becomes five-character clock text by leading zeros, its digits kept |
| Schedules.UnpaddedReminderNeverDue | main.py:403-409 | a reminder stored as matched with a one-digit hour is due at no clock reading |
| Schedules.UnpaddedDailyNeverFires | main.py:413-418 | a daily message stored with a one-digit hour fires at no clock reading |
| Schedules.NormalizedMatchesClock | main.py:892-893 | a time in clock form equals the clock's `%H:%M` exactly when its hour digits give the clock's hour and its minute digits the clock's minute |
| Schedules.ReminderDueAtItsMinute | main.py:892-895 | stored in clock form, a reminder set today is due exactly when the clock's hour and minute are the ones its digits name |
| Schedules.DailyFiresAtItsMinute | main.py:925-926 | stored in clock form, a daily message fires exactly when the clock's hour and minute are the ones its digits name |
| Schedules.ClockTextNormal | main.py:895 | a reminder written in the clock's own form is due at that clock |
| Schedules.StoreDirectives | main.py:396-441 | storing the parsed directives gives the user a schedule entry and updates schedules and memories as `StoreAll` does, in the time form given: `AsMatched` stores reminder and daily times as matched (the bot), `ClockForm` pads them (the correction) |
| Schedules.SpecialDateLastWins | main.py:435-437 | a special date given twice keeps the last description; an unnamed date keeps what it had |
| Schedules.TimedAppended | main.py:403-410 | the reminders are appended, one per timed directive, in order, after the existing ones, each with its time in the form given (as matched for the bot, clock form for the correction) |
| Schedules.TimedOfHas | main.py:403-409 | every timed directive leaves its reminder, with its hint and today's date, among the stored ones |
| Schedules.UnpaddedReminderStaysForever | main.py:403-409 | stored as the bot stores it, a reminder directive with a one-digit hour leaves a reminder that stays pending over any sequence of clock minutes |
| Schedules.MemoriesOfOthersUnchanged | main.py:422-433 | memories of a user no directive names are unchanged |
| Schedules.PendingAndDuePartition | main.py:892-922 | the kept and fired reminders partition the list: kept are exactly the not-due ones, fired exactly the due ones |
| Schedules.NothingFiresTwice | main.py:892-922 | after a pass nothing is due again at the same minute, and a second pass keeps the list |
| Schedules.MissedStaysPending | main.py:892-922 | a reminder whose minute never comes stays pending for ever |
| Schedules.DailyDue | main.py:925-926 | every firing is a daily message, and each item whose time equals the clock text fires its topic |
| Schedules.DailyDueExactly | main.py:925-926 | a daily firing is made exactly when some item with that topic has the clock's time: only matching items fire |
| Schedules.DailyDueAppend | main.py:925-926 | daily firings come in list order: those of a concatenation are those of each part in turn |
| Schedules.SpecialOnlyAtMidnight | main.py:952-954 | a special date fires iff the time is 00:00 and today's `MM-DD` is a key |
| Schedules.TimedFires | main.py:895-896 | one model call per due reminder, with its hint |
| Schedules.TickUser | main.py:891-954 | the per-user loop keeps the not-due reminders and makes the calls of `FiringsAt` |
| Schedules.ScheduledMessage | main.py:914-916 | a scheduled answer is sent only when it lacks `[不发]` and its visible part is non-blank, and what is sent is that part |
| Schedules.ScheduledMessageIsClean | main.py:914-918 | a sent scheduled message is stripped with no run of three newlines |
| Delivery.SentPartsAreTheNonBlankParts | main.py:499-504 | the messages sent are stripped and non-blank, and every non-blank part is sent |
| Delivery.SendMultiple | main.py:499-504 | the loop sends `SentParts`, one message per non-blank part in order |
| Delivery.PlanDelivery | main.py:585-594 | the placeholder is deleted iff the reply is blank; split iff non-blank, splitting allowed and the triple-bar separator present; otherwise the reply plus the points line when the remainder is non-negative |
| Delivery.SplitMessagesAreThePieces | main.py:587-590 | a split reply sends the stripped first piece then the non-blank pieces, which join back to the reply and none contains the separator |
| Delivery.UnseparatedReplyIsSingle | main.py:585-594 | a non-blank reply without the separator is delivered whole |
| Session.Dedup | main.py:664-670 | an event is new iff its id is unseen; a seen id changes nothing; a new id is added and the set emptied when it then holds more than 1000 |
| Session.RedeliveryIgnoredUnlessCleared | main.py:664-670 | an immediate redelivery is handled again exactly when the first delivery filled the set past 1000 |
| Session.EventGate.constructor | main.py:59 | the process starts with no event seen |
| Session.EventGate.Admit | main.py:664-670 | the check updates the set as `Dedup` does and keeps it within 1000 |
| Session.RouteOf | main.py:694-712 | a message is buffered iff the stored mode (default long) is short and it has no images; `Bot.RouteDecidesSplitting` ties the route to the answer |
| Session.ArriveAll | main.py:698-701 | arrivals append to the user's queue in order and leave other queues alone |
| Session.Take | main.py:599-601 | an empty queue gives nothing; otherwise the waiting messages joined by newlines, an emptied queue, other queues unchanged |
| Session.DrainGivesArrivals | main.py:599-601 | drained messages come out joined by newlines in arrival order, the queue is empty, and newline-free messages split back one by one |
| Session.MessageBuffer.constructor | main.py:60 | the process starts with no message waiting |
| Session.MessageBuffer.Arrive | main.py:698-701 | an arrival appends to its user's queue |
| Session.MessageBuffer.Drain | main.py:599-601 | the drain takes as `Take` does |
| Bot.RouteDecidesSplitting | main.py:694-710 | whichever way a message is routed (buffered to `delayed_process`, or answered at once by `process_message`), its answer may be split into several messages exactly when the stored mode is short; a user not yet stored is answered at once in long mode |
| Bot.AsWrittenLosesTheCharge | main.py:521-583 | as the bot runs a turn, the saved record has the usage read before the charge, so usage never changes |
| Bot.AsWrittenGrantsForever | main.py:521-583 | as written, a limited user granted once is granted the next turn too |
| Bot.RespondKeepsTheCharge | main.py:521-654 | a turn charges exactly what the check charges; a refused turn changes no store; an answered turn appends the text and full answer, stores the directives into the user's schedules and the memories, and keeps other users' records and schedules |
| Bot.ProcessMessage | main.py:521-654 | the turn's steps compute `Respond`, the corrected turn of Findings: the charge is kept and reminder and daily times are stored in clock form |
| Bot.ResetProperties | main.py:726-765 | `/reset yes` empties history, restores model, `long` mode and budget, clears the last-active time, keeps channel, memories and other users, empties the user's schedules so nothing fires, and is idempotent; other text changes nothing |
| Bot.SchedulerTick | main.py:861-1014 | one scheduler pass computes `Tick`: the midnight reset, then each user with a channel served in turn |
| Bot.TickPreserves | main.py:861-1014 | a pass leaves memories, daily items and special dates alone, resets usage exactly at midnight, and only drops due reminders |
| Bot.NoReminderTwiceInAMinute | main.py:892-922 | a second pass in the same minute fires no reminder |

## Left out

- Flask routes' request and response plumbing, the `url_verification`
  answer, the bot and subtype filters, and mention stripping in `events`.
  These are HTTP concerns. The model starts from the user id, text and
  image flag.
- JSONBin load and save. The stores are in-memory maps, and their
  fail-to-empty-default behaviour is an I/O concern.
- Slack HTTP calls (send, update, delete, members, users.info), image
  download and base64. These are network calls; delivery is a returned
  `Plan` and scheduled sends are returned `Firing`s.
- `call_ai`. The model's answer is a parameter.
- `get_system_prompt`, `get_all_memories_for_channel`, `get_display_name`,
  `get_username`, `is_dm_channel`. These only assemble prompt text or call
  Slack.
- `is_unlimited_user` is an input flag.
- Chat logs (`log_message`, `clear_chat_logs`). These are a write-only
  store that nothing modelled reads.
- Threads, `threading.Timer` cancellation and `time.sleep`. They exist
  for concurrency and pacing. The model runs each flow to completion, one
  after another.
- Bot.Tick and Bot.SchedulerTick take every Slack send to succeed. In the
  bot, `send_slack` (main.py:477-483) catches nothing, and one `try` covers
  the whole scheduler pass (main.py:864-1017). A send that raises therefore
  ends the pass before the saves at main.py:1013-1014. Reminders already
  sent that minute stay stored, and since a reminder is due only at its
  exact minute they stay pending for good. Users after the failing one miss
  that minute. The model has no failing send and always saves.
- The inactivity nudge (main.py:977-1007). It draws from `random.uniform`
  and uses float hours.
- The wall clock. `get_cn_time` and `get_time_str` are parameters: `Clock`
  values and preformatted date and stamp text.
- The `/model`, `/mode` and `/points` commands. They write a single field
  or only read.
- Images in `process_message`. Only the routing decision sees them.
- `\d` is taken as ASCII digits. Python's regex also accepts other Unicode
  digits, which the model does not.
- The model's parse of `/memory delete N` handles optional sign and ASCII
  digits. It leaves out `int()`'s underscores and non-ASCII digits.
- Command text is taken as already stripped and lower-cased, as
  main.py:721 makes it.
- Floating point in `estimate_tokens`. It is computed exactly in twelfths,
  which `History.EstimateIsFloor` shows equals the floor over the reals.
  Binary rounding of `/ 1.5` is not modelled.
- The scheduler's own calls to `parse_hidden_commands` on scheduled
  answers. Their memory writes and their schedule writes are not modelled.
  The schedule writes are in any case overwritten by the scheduler's final
  save at main.py:1013.
- The `history[-10:]` window and the trimming of the prompt the scheduler
  sends. These only shape prompt text.
- Iteration order over users. The scheduler's result is the same in any
  order, so the model does not fix one.
- Directives.ParsedDirectivesWellShaped and Text.SplitPiecesAvoidSep: the
  visible reply is not proved free of every consumed literal, because
  `str.replace` can splice a new occurrence from the text around a removed
  one (`Text.RemovalCanSplice`). What is proved is that each piece between
  removed occurrences is free of it.
- Timestamps are whole seconds rather than float `timestamp()` values.
- A stored record without a `history` key is read as empty history. The
  bot would raise at the append in that case.

## Findings

| source | as written | input that shows it | evidently intended | confidence | as-written member | corrected member |
|---|---|---|---|---|---|---|
| main.py:403-418 | timed and daily times are stored exactly as matched by `\d{1,2}:\d{2}`, but compared with the zero-padded `%H:%M` | the reminder directive with time `9:05` stores time `9:05`, and the clock only ever reads `09:05`, so the reminder never fires and stays pending; a daily directive with `9:05` never fires | the directive's time denotes the clock minute `09:05` | high (not executed) | Schedules.UnpaddedReminderStaysForever | Schedules.ReminderDueAtItsMinute |
| main.py:521-583 | the turn loads the user records, `check_and_use_points` loads its own copy, adds the cost and saves it, and then the turn saves the copy loaded first | any limited user: after an answered turn `points_used` is what it was before, so the 20-point daily quota is never used up | the cost the check charged stays charged | high (not executed) | Bot.AsWrittenGrantsForever | Bot.RespondKeepsTheCharge |
