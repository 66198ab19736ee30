/**
 * How a visible reply reaches the user once the model has answered: the
 * "typing" placeholder is deleted when there is nothing to say, replaced by
 * the first of several short messages when the reply is split on `|||`, or
 * replaced by the whole reply with the points left appended.
 */
module Delivery {
  import opened Text

  /** The separator short-mode replies put between messages. */
  const Separator: string := "|||"

  /** What happens to the placeholder message and what else is sent. */
  datatype Plan =
    | DeleteTyping                                   // nothing visible: the placeholder is removed
    | SplitDelivery(first: string, rest: seq<string>) // the placeholder becomes `first`; `rest` follow as new messages
    | SingleDelivery(text: string)                   // the placeholder becomes `text`

  /** The line appended to a single reply when the user's points are limited. */
  function PointsSuffix(remaining: int): string {
    "\n\n_剩余积分: " + IntToString(remaining) + "_"
  }

  /** The messages `send_multiple_slack` sends: each part stripped, blank ones skipped. */
  function SentParts(parts: seq<string>): seq<string> {
    if parts == [] then [] else SentParts(parts[..|parts| - 1]) + SentPart(parts[|parts| - 1])
  }

  /** The message one part becomes: none when it is blank, else the stripped part. */
  function SentPart(part: string): seq<string> {
    if Strip(part) != [] then [Strip(part)] else []
  }

  /** Every message sent is non-blank and stripped, and every non-blank part is sent. */
  lemma SentPartsAreTheNonBlankParts(parts: seq<string>)
    ensures var sent := SentParts(parts);
            && |sent| <= |parts|
            && (forall k :: 0 <= k < |sent| ==> sent[k] != [] && IsStripped(sent[k]))
            && (forall k :: 0 <= k < |parts| && Strip(parts[k]) != [] ==> Strip(parts[k]) in sent)
  {
    SentPartsClean(parts);
    SentPartsComplete(parts);
  }

  lemma {:induction false} SentPartsClean(parts: seq<string>)
    ensures var sent := SentParts(parts);
            |sent| <= |parts| && forall k :: 0 <= k < |sent| ==> sent[k] != [] && IsStripped(sent[k])
    decreases |parts|
  {
    if parts != [] {
      SentPartsClean(parts[..|parts| - 1]);
    }
  }

  lemma SentPartsComplete(parts: seq<string>)
    ensures forall k :: 0 <= k < |parts| && Strip(parts[k]) != [] ==> Strip(parts[k]) in SentParts(parts)
  {
    forall k | 0 <= k < |parts| && Strip(parts[k]) != [] ensures Strip(parts[k]) in SentParts(parts) {
      SentPartSent(parts, k);
    }
  }

  /** The non-blank part at index `k` is among the messages sent. */
  lemma {:induction false} SentPartSent(parts: seq<string>, k: nat)
    requires k < |parts| && Strip(parts[k]) != []
    ensures Strip(parts[k]) in SentParts(parts)
    decreases |parts|
  {
    var init, last := parts[..|parts| - 1], parts[|parts| - 1];
    assert SentParts(parts) == SentParts(init) + SentPart(last);
    if k < |init| {
      assert init[k] == parts[k];
      SentPartSent(init, k);
    }
  }

  /** `send_multiple_slack`: one message per non-blank part, in order (the pause between sends is not modelled). */
  method SendMultiple(parts: seq<string>) returns (sent: seq<string>)
    ensures sent == SentParts(parts)
  {
    sent := [];
    for i := 0 to |parts|
      invariant sent == SentParts(parts[..i])
    {
      var text := Strip(parts[i]);
      assert parts[..i + 1][..i] == parts[..i];
      if text != [] {
        sent := sent + [text];
      }
    }
    assert parts[..|parts|] == parts;
  }

  /**
   * The delivery decision at the end of `process_message` and
   * `delayed_process`: `splitAllowed` is whether the reply may be split
   * (short mode, and always after debouncing); `remaining` is the points
   * left, negative for an unlimited user.
   */
  function PlanDelivery(visible: string, splitAllowed: bool, remaining: int): (p: Plan)
    ensures p.DeleteTyping? <==> AllSpace(visible)
    ensures p.SplitDelivery? <==> !AllSpace(visible) && splitAllowed && Contains(visible, Separator)
    ensures p.SingleDelivery? ==> p.text == visible + (if remaining >= 0 then PointsSuffix(remaining) else "")
  {
    StripEmptyIff(visible);
    if Strip(visible) == [] then DeleteTyping
    else if splitAllowed && Contains(visible, Separator) then
      var parts := Split(visible, Separator);
      SplitDelivery(Strip(parts[0]), SentParts(parts[1..]))
    else SingleDelivery(if remaining >= 0 then visible + PointsSuffix(remaining) else visible)
  }

  /**
   * A split reply sends every non-blank piece between separators, in
   * order, and no message it sends holds the separator.
   */
  lemma SplitMessagesAreThePieces(visible: string, remaining: int)
    requires PlanDelivery(visible, true, remaining).SplitDelivery?
    ensures var p := PlanDelivery(visible, true, remaining);
            var parts := Split(visible, Separator);
            && Join(parts, Separator) == visible
            && p.first == Strip(parts[0])
            && p.rest == SentParts(parts[1..])
            && !Contains(p.first, Separator)
            && forall k :: 0 <= k < |p.rest| ==> !Contains(p.rest[k], Separator)
  {
    var parts := Split(visible, Separator);
    JoinSplit(visible, Separator);
    SplitPiecesAvoidSep(visible, Separator);
    StripAvoids(parts[0], Separator);
    SentPartsAvoid(parts[1..]);
  }

  lemma {:induction false} SentPartsAvoid(parts: seq<string>)
    requires forall k :: 0 <= k < |parts| ==> !Contains(parts[k], Separator)
    ensures forall k :: 0 <= k < |SentParts(parts)| ==> !Contains(SentParts(parts)[k], Separator)
    decreases |parts|
  {
    if parts != [] {
      var init, last := parts[..|parts| - 1], parts[|parts| - 1];
      assert forall k :: 0 <= k < |init| ==> init[k] == parts[k];
      SentPartsAvoid(init);
      StripAvoids(last, Separator);
      assert SentParts(parts) == SentParts(init) + SentPart(last);
    }
  }

  /** A reply with no separator is delivered whole, even in short mode. */
  lemma UnseparatedReplyIsSingle(visible: string, splitAllowed: bool, remaining: int)
    requires !AllSpace(visible) && !Contains(visible, Separator)
    ensures PlanDelivery(visible, splitAllowed, remaining).SingleDelivery?
  {
  }
}
