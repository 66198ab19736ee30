/**
 * The bot's two in-process globals touched by the events endpoint: the set
 * of event ids already seen (Slack delivers an event again when it is not
 * acknowledged in time) and the per-user buffer of short-mode messages
 * waiting to be answered together.
 */
module Session {
  import opened Wrappers
  import opened Text

  // ------------------------------------------------------------ event de-duplication

  /** The set is emptied once it holds more ids than this. */
  const SeenCapacity: nat := 1000

  /**
   * One arrival at the events endpoint: whether the event is new, and the
   * seen set afterwards. A missing event id is the id None, remembered like
   * any other.
   */
  function Dedup(seen: set<Option<string>>, id: Option<string>): (r: (bool, set<Option<string>>))
    ensures !r.0 <==> id in seen
    ensures !r.0 ==> r.1 == seen
    ensures r.0 ==> r.1 == (if |seen + {id}| > SeenCapacity then {} else seen + {id})
  {
    if id in seen then (false, seen)
    else
      var added := seen + {id};
      (true, if |added| > SeenCapacity then {} else added)
  }

  /**
   * A redelivered event is ignored when it comes right after the first
   * delivery, except when that delivery filled the set past its capacity:
   * the set was then emptied and the event is handled a second time.
   */
  lemma RedeliveryIgnoredUnlessCleared(seen: set<Option<string>>, id: Option<string>)
    requires id !in seen && |seen| <= SeenCapacity
    ensures var after := Dedup(seen, id).1;
            (Dedup(after, id).0 <==> |seen| == SeenCapacity)
  {
    assert |seen + {id}| == |seen| + 1;
  }

  /** `processed_events`: the ids the running process has already handled. */
  class EventGate {
    var seen: set<Option<string>>

    predicate Valid()
      reads this
    {
      |seen| <= SeenCapacity
    }

    constructor()
      ensures seen == {} && Valid()
    {
      seen := {};
    }

    /** The check at the top of `events`: answer a seen id at once, else remember it (emptying a full set). */
    method Admit(id: Option<string>) returns (isNew: bool)
      requires Valid()
      modifies this
      ensures (isNew, seen) == Dedup(old(seen), id)
      ensures Valid()
    {
      if id in seen {
        return false;
      }
      seen := seen + {id};
      if |seen| > SeenCapacity {
        seen := {};
      }
      isNew := true;
    }
  }

  // ------------------------------------------------------------ the short-mode buffer

  /** Where a new message goes: short mode without images waits in the buffer, anything else is answered at once. */
  datatype Route = Buffered | Immediate

  /** The routing in `events`: the stored mode (default `long`) and whether images came with the message. */
  function RouteOf(mode: Option<string>, hasImages: bool): (r: Route)
    ensures r == Buffered <==> mode.GetOr("long") == "short" && !hasImages
  {
    if mode.GetOr("long") == "short" && !hasImages then Buffered else Immediate
  }

  /** The messages waiting for `uid`. */
  function Queued(pending: map<string, seq<string>>, uid: string): seq<string> {
    if uid in pending then pending[uid] else []
  }

  /** The messages waiting after `msgs` arrived in this order. */
  function ArriveAll(pending: map<string, seq<string>>, uid: string, msgs: seq<string>): (r: map<string, seq<string>>)
    ensures Queued(r, uid) == Queued(pending, uid) + msgs
    ensures forall u :: u != uid ==> Queued(r, u) == Queued(pending, u)
    decreases |msgs|
  {
    if msgs == [] then pending
    else ArriveAll(pending[uid := Queued(pending, uid) + [msgs[0]]], uid, msgs[1..])
  }

  /** What `delayed_process` takes from the buffer: the waiting messages joined by newlines, or nothing when none wait. */
  function Take(pending: map<string, seq<string>>, uid: string): (r: (Option<string>, map<string, seq<string>>))
    ensures Queued(pending, uid) == [] ==> r == (None, pending)
    ensures Queued(pending, uid) != [] ==> r.0 == Some(Join(Queued(pending, uid), "\n")) && Queued(r.1, uid) == []
    ensures forall u :: u != uid ==> Queued(r.1, u) == Queued(pending, u)
  {
    if Queued(pending, uid) == [] then (None, pending)
    else (Some(Join(pending[uid], "\n")), pending[uid := []])
  }

  /**
   * Messages that arrive while nothing waits come out of the buffer as one
   * text, in arrival order; when none of them holds a newline, splitting that
   * text at newlines gives them back one by one.
   */
  lemma DrainGivesArrivals(pending: map<string, seq<string>>, uid: string, msgs: seq<string>)
    requires Queued(pending, uid) == [] && msgs != []
    ensures var (combined, after) := Take(ArriveAll(pending, uid, msgs), uid);
            && combined == Some(Join(msgs, "\n"))
            && Queued(after, uid) == []
            && ((forall k :: 0 <= k < |msgs| ==> '\n' !in msgs[k]) ==> Split(combined.value, "\n") == msgs)
  {
    var filled := ArriveAll(pending, uid, msgs);
    assert Queued(filled, uid) == msgs;
    if forall k :: 0 <= k < |msgs| ==> '\n' !in msgs[k] {
      SplitJoinChar(msgs, '\n');
    }
  }

  /** `pending_messages`: the short-mode messages each user has sent and the bot has not yet answered. */
  class MessageBuffer {
    var pending: map<string, seq<string>>

    constructor()
      ensures pending == map[]
    {
      pending := map[];
    }

    /** A short-mode message arrives: append it to the user's queue. */
    method Arrive(uid: string, text: string)
      modifies this
      ensures pending == ArriveAll(old(pending), uid, [text])
    {
      var queue := if uid in pending then pending[uid] else [];
      pending := pending[uid := queue + [text]];
    }

    /** `delayed_process` after its pause: take the waiting messages as one text and leave the queue empty. */
    method Drain(uid: string) returns (combined: Option<string>)
      modifies this
      ensures (combined, pending) == Take(old(pending), uid)
    {
      if uid in pending && pending[uid] != [] {
        combined := Some(Join(pending[uid], "\n"));
        pending := pending[uid := []];
      } else {
        combined := None;
      }
    }
  }
}
