/**
 * A user's long-term memories: a list of entries kept oldest first and bounded
 * by the total length of their contents (`add_memory`, `delete_memory`,
 * `format_memories` and the `/memory` command). Loading and saving the list
 * is store I/O; the operations here take the loaded list and return the one
 * that is saved.
 */
module Memory {
  import opened Wrappers
  import opened Text

  /** The bound on the total number of characters a user's memories hold. */
  const MemoryLimit: nat := 2000

  /** One stored memory and the time (as the bot formats it) it was written. */
  datatype MemoryEntry = MemoryEntry(content: string, time: string)

  /** The characters all the entries' contents hold together. */
  function TotalChars(ms: seq<MemoryEntry>): nat {
    if ms == [] then 0 else |ms[0].content| + TotalChars(ms[1..])
  }

  /** The total over a list split in two is the sum of the totals. */
  lemma {:induction false} TotalCharsAppend(a: seq<MemoryEntry>, b: seq<MemoryEntry>)
    ensures TotalChars(a + b) == TotalChars(a) + TotalChars(b)
    decreases |a|
  {
    if a != [] {
      TotalCharsAppend(a[1..], b);
      assert (a + b)[0] == a[0] && (a + b)[1..] == a[1..] + b;
      assert TotalChars(a + b) == |a[0].content| + TotalChars(a[1..] + b);
    } else {
      assert a + b == b;
    }
  }

  // ------------------------------------------------------------ add_memory

  /**
   * The oldest entries are dropped one at a time while the ones left plus
   * `incoming` new characters exceed the limit and any are left.
   */
  function Evict(ms: seq<MemoryEntry>, incoming: nat): seq<MemoryEntry> {
    if TotalChars(ms) + incoming > MemoryLimit && ms != [] then Evict(ms[1..], incoming) else ms
  }

  /** The list `add_memory` saves: the survivors of eviction, then the new entry. */
  function Admit(ms: seq<MemoryEntry>, content: string, time: string): seq<MemoryEntry> {
    Evict(ms, |content|) + [MemoryEntry(content, time)]
  }

  /** `add_memory` on the loaded list: pop the oldest entry while the total would overflow, then append. */
  method AddMemory(ms: seq<MemoryEntry>, content: string, time: string) returns (saved: seq<MemoryEntry>)
    ensures saved == Admit(ms, content, time)
  {
    var memories := ms;
    var total := TotalChars(ms);
    while total + |content| > MemoryLimit && memories != []
      invariant total == TotalChars(memories)
      invariant Evict(memories, |content|) == Evict(ms, |content|)
      decreases |memories|
    {
      total := total - |memories[0].content|;
      memories := memories[1..];
    }
    saved := memories + [MemoryEntry(content, time)];
  }

  /**
   * Eviction keeps a suffix of the list: the first `d` entries go, for the
   * least `d` at which the rest leaves room for the new characters (or every
   * entry, when no such `d` exists).
   */
  lemma {:induction false} EvictIsMinimalSuffix(ms: seq<MemoryEntry>, incoming: nat)
    ensures var d := |ms| - |Evict(ms, incoming)|;
            && 0 <= d <= |ms| && Evict(ms, incoming) == ms[d..]
            && (forall j :: 0 <= j < d ==> TotalChars(ms[j..]) + incoming > MemoryLimit)
            && (d < |ms| ==> TotalChars(ms[d..]) + incoming <= MemoryLimit)
    decreases |ms|
  {
    if TotalChars(ms) + incoming > MemoryLimit && ms != [] {
      EvictIsMinimalSuffix(ms[1..], incoming);
      var d := |ms| - |Evict(ms, incoming)|;
      assert Evict(ms, incoming) == Evict(ms[1..], incoming);
      forall j | 1 <= j < d ensures TotalChars(ms[j..]) + incoming > MemoryLimit {
        assert ms[1..][j - 1..] == ms[j..];
      }
      assert ms[1..][d - 1..] == ms[d..];
    }
  }

  /**
   * What `add_memory` promises: the new entry is last, the entries before it
   * are the newest of the old ones in their old order, nothing is evicted
   * when there is room, and the total stays within the limit whenever the new
   * content alone fits; content longer than the limit evicts everything.
   */
  lemma AdmitProperties(ms: seq<MemoryEntry>, content: string, time: string)
    ensures var r := Admit(ms, content, time);
            var d := |ms| + 1 - |r|;
            && 0 <= d <= |ms| && r == ms[d..] + [MemoryEntry(content, time)]
            && (TotalChars(ms) + |content| <= MemoryLimit ==> r == ms + [MemoryEntry(content, time)])
            && (|content| <= MemoryLimit ==> TotalChars(r) <= MemoryLimit)
            && (|content| > MemoryLimit ==> r == [MemoryEntry(content, time)])
  {
    var e := Evict(ms, |content|);
    var entry := MemoryEntry(content, time);
    EvictIsMinimalSuffix(ms, |content|);
    TotalCharsAppend(e, [entry]);
    assert TotalChars([entry]) == |content|;
  }

  // ------------------------------------------------------------ delete_memory

  /**
   * `delete_memory` with a 1-based index: the content of the entry removed and
   * the list saved, or None and the list untouched when the index is out of range.
   */
  function DeleteMemory(ms: seq<MemoryEntry>, index: int): (r: (Option<string>, seq<MemoryEntry>))
    ensures 1 <= index <= |ms| ==>
              && r.0 == Some(ms[index - 1].content)
              && |r.1| == |ms| - 1
              && (forall k :: 0 <= k < index - 1 ==> r.1[k] == ms[k])
              && (forall k :: index - 1 <= k < |r.1| ==> r.1[k] == ms[k + 1])
    ensures !(1 <= index <= |ms|) ==> r == (None, ms)
  {
    if 1 <= index <= |ms| then (Some(ms[index - 1].content), ms[..index - 1] + ms[index..])
    else (None, ms)
  }

  // ------------------------------------------------------------ format_memories

  /** One line of the listing: `"{i}. content"` when numbered, `"• content"` otherwise. */
  function MemoryLine(i: nat, m: MemoryEntry, numbered: bool): (line: string)
    ensures line != []
  {
    if numbered then NatToString(i) + ". " + m.content else "• " + m.content
  }

  /** The lines for `ms`, numbered from `first`. */
  function MemoryLines(ms: seq<MemoryEntry>, first: nat, numbered: bool): (lines: seq<string>)
    ensures |lines| == |ms|
    ensures forall k :: 0 <= k < |ms| ==> lines[k] == MemoryLine(first + k, ms[k], numbered)
  {
    if ms == [] then [] else [MemoryLine(first, ms[0], numbered)] + MemoryLines(ms[1..], first + 1, numbered)
  }

  /** The listing `format_memories` returns: the lines joined by newlines, `""` for no memories. */
  function Listing(ms: seq<MemoryEntry>, numbered: bool): string {
    if ms == [] then "" else Join(MemoryLines(ms, 1, numbered), "\n")
  }

  /** `format_memories`: one line per entry, appended in list order, then joined. */
  method FormatMemories(ms: seq<MemoryEntry>, numbered: bool) returns (listing: string)
    ensures listing == Listing(ms, numbered)
  {
    if ms == [] {
      return "";
    }
    var lines: seq<string> := [];
    for i := 0 to |ms|
      invariant lines == MemoryLines(ms[..i], 1, numbered)
    {
      lines := lines + [MemoryLine(i + 1, ms[i], numbered)];
      assert ms[..i + 1] == ms[..i] + [ms[i]];
      MemoryLinesSnoc(ms[..i], ms[i], 1, numbered);
    }
    assert ms[..|ms|] == ms;
    listing := Join(lines, "\n");
  }

  lemma MemoryLinesSnoc(ms: seq<MemoryEntry>, m: MemoryEntry, first: nat, numbered: bool)
    ensures MemoryLines(ms + [m], first, numbered) == MemoryLines(ms, first, numbered) + [MemoryLine(first + |ms|, m, numbered)]
  {
    var l := MemoryLines(ms + [m], first, numbered);
    var r := MemoryLines(ms, first, numbered) + [MemoryLine(first + |ms|, m, numbered)];
    assert |l| == |r|;
    forall k | 0 <= k < |l| ensures l[k] == r[k] {
      assert l[k] == MemoryLine(first + k, (ms + [m])[k], numbered);
      if k < |ms| {
        assert (ms + [m])[k] == ms[k];
        assert r[k] == MemoryLines(ms, first, numbered)[k];
      } else {
        assert (ms + [m])[k] == m;
      }
    }
  }

  /** The listing is empty exactly when there are no memories. */
  lemma ListingEmptyIff(ms: seq<MemoryEntry>, numbered: bool)
    ensures Listing(ms, numbered) == "" <==> ms == []
  {
    if ms != [] {
      var lines := MemoryLines(ms, 1, numbered);
      JoinHeadPrefix(lines, "\n");
    }
  }

  lemma JoinHeadPrefix(parts: seq<string>, sep: string)
    requires parts != []
    ensures |Join(parts, sep)| >= |parts[0]|
  {
  }

  /**
   * When no content holds a newline, splitting the listing at newlines gives
   * back exactly one line per entry, in list order.
   */
  lemma ListingLines(ms: seq<MemoryEntry>, numbered: bool)
    requires ms != []
    requires forall k :: 0 <= k < |ms| ==> '\n' !in ms[k].content
    ensures Split(Listing(ms, numbered), "\n") == MemoryLines(ms, 1, numbered)
  {
    var lines := MemoryLines(ms, 1, numbered);
    forall k | 0 <= k < |lines| ensures '\n' !in lines[k] {
      assert lines[k] == MemoryLine(1 + k, ms[k], numbered);
      var n := NatToString(1 + k);
      assert forall j :: 0 <= j < |n| ==> IsDigit(n[j]);
      if numbered {
        assert lines[k] == n + ". " + ms[k].content;
      }
    }
    SplitJoinChar(lines, '\n');
  }

  // ------------------------------------------------------------ the /memory command

  /** What the `/memory` command answers. */
  datatype MemoryReply =
    | ShowMemories(total: nat, listing: string)  // the numbered listing with the total used
    | NoMemories
    | ConfirmClear                               // asks for `clear yes` or `clear no`
    | Cleared
    | ClearCancelled
    | Deleted(index: int, content: string)
    | NoSuchEntry(index: int)
    | NotANumber
    | Usage

  /**
   * `/memory` on the command text (already stripped and lower-cased) and the
   * user's memories: the answer and the memories saved afterwards.
   */
  function MemoryCommand(text: string, ms: seq<MemoryEntry>): (r: (MemoryReply, seq<MemoryEntry>)) {
    if text == "" then
      (if ms == [] then NoMemories else ShowMemories(TotalChars(ms), Listing(ms, true)), ms)
    else if text == "clear" then (ConfirmClear, ms)
    else if text == "clear yes" then (Cleared, [])
    else if text == "clear no" then (ClearCancelled, ms)
    else if |text| >= 7 && text[..7] == "delete " then
      match ParseInt(Strip(text[7..]))
      case None => (NotANumber, ms)
      case Some(index) =>
        var (removed, rest) := DeleteMemory(ms, index);
        // `if removed:` treats an empty content like no entry at all
        (if removed.Some? && removed.value != "" then Deleted(index, removed.value) else NoSuchEntry(index), rest)
    else (Usage, ms)
  }

  /** Only `clear yes` and an in-range `delete` change the memories; the other answers leave them as they were. */
  lemma MemoryCommandChanges(text: string, ms: seq<MemoryEntry>)
    ensures var (reply, after) := MemoryCommand(text, ms);
            && ((|| reply.ShowMemories? || reply.NoMemories? || reply.ConfirmClear? || reply.ClearCancelled?
                 || reply.NotANumber? || reply.Usage?) ==> after == ms)
            && (reply.Cleared? ==> after == [])
            && (reply.Deleted? ==> 1 <= reply.index <= |ms| && after == DeleteMemory(ms, reply.index).1
                                   && reply.content == ms[reply.index - 1].content)
            && (reply.NoSuchEntry? ==> after == DeleteMemory(ms, reply.index).1)
  {
    if text != "" && text != "clear" && text != "clear yes" && text != "clear no"
       && |text| >= 7 && text[..7] == "delete " {
      match ParseInt(Strip(text[7..]))
      case None =>
      case Some(index) =>
        var removed := DeleteMemory(ms, index).0;
        assert removed.Some? ==> 1 <= index <= |ms| && removed.value == ms[index - 1].content;
    }
  }

  /** `/memory delete N` with `N` written as the bot numbers its listing removes entry `N` and reports its content. */
  lemma DeleteByListedNumber(ms: seq<MemoryEntry>, n: nat)
    requires 1 <= n <= |ms| && ms[n - 1].content != ""
    ensures MemoryCommand("delete " + NatToString(n), ms)
            == (Deleted(n, ms[n - 1].content), ms[..n - 1] + ms[n..])
  {
    var text := "delete " + NatToString(n);
    assert text[..7] == "delete " && text[7..] == IntToString(n);
    assert text != "clear" && text != "clear yes" && text != "clear no" by {
      assert text[0] == 'd';
    }
    IntToStringStripped(n);
    StripStripped(IntToString(n));
    ParseIntRoundTrip(n);
  }
}
