/**
 * The pieces of Python's string library that the bot relies on, written out:
 * `str.strip()`, `re.sub(r'\n{3,}', '\n\n', s)`, `str.split(sep)`,
 * `sep.join(parts)`, `str.replace(p, "")`, `str(n)`, `int(s)` and the
 * zero-padded fields of `strftime`.
 */
module Text {
  import opened Wrappers

  // ---------------------------------------------------------------- whitespace

  /** The characters for which Python's `str.isspace()` holds; `str.strip()` removes these. */
  predicate IsSpace(c: char) {
    || c == ' '
    || '\t' <= c <= '\r'
    || '\U{1C}' <= c <= '\U{1F}'
    || c == '\U{85}' || c == '\U{A0}' || c == '\U{1680}'
    || '\U{2000}' <= c <= '\U{200A}'
    || c == '\U{2028}' || c == '\U{2029}' || c == '\U{202F}' || c == '\U{205F}' || c == '\U{3000}'
  }

  predicate AllSpace(s: string) {
    forall k :: 0 <= k < |s| ==> IsSpace(s[k])
  }

  /** Neither end of `s` is whitespace. */
  predicate IsStripped(s: string) {
    s == [] || (!IsSpace(s[0]) && !IsSpace(s[|s| - 1]))
  }

  /** `s` without its leading whitespace. */
  function TrimStart(s: string): (r: string)
    ensures |r| <= |s|
  {
    if s != [] && IsSpace(s[0]) then TrimStart(s[1..]) else s
  }

  /** What `TrimStart` cuts is whitespace, and what it keeps is the rest of the text. */
  lemma {:induction false} TrimStartCuts(s: string)
    ensures var r := TrimStart(s);
            && r == s[|s| - |r|..] && (r == [] || !IsSpace(r[0])) && AllSpace(s[..|s| - |r|])
    decreases |s|
  {
    if s != [] && IsSpace(s[0]) {
      TrimStartCuts(s[1..]);
      var r := TrimStart(s);
      assert s[..|s| - |r|] == [s[0]] + s[1..][..|s[1..]| - |r|];
    }
  }

  /** `s` without its trailing whitespace. */
  function TrimEnd(s: string): (r: string)
    ensures |r| <= |s|
  {
    if s != [] && IsSpace(s[|s| - 1]) then TrimEnd(s[..|s| - 1]) else s
  }

  /** What `TrimEnd` cuts is whitespace, and what it keeps is the start of the text. */
  lemma {:induction false} TrimEndCuts(s: string)
    ensures var r := TrimEnd(s);
            && r == s[..|r|] && (r == [] || !IsSpace(r[|r| - 1])) && AllSpace(s[|r|..])
    decreases |s|
  {
    if s != [] && IsSpace(s[|s| - 1]) {
      TrimEndCuts(s[..|s| - 1]);
      var r := TrimEnd(s);
      assert s[|r|..] == s[..|s| - 1][|r|..] + [s[|s| - 1]];
    }
  }

  /** Python's `s.strip()`: the slice of `s` left once whitespace is cut from both ends. */
  function Strip(s: string): (r: string)
    ensures IsStripped(r)
  {
    var t := TrimStart(s);
    TrimStartCuts(s);
    TrimEndCuts(t);
    var r := TrimEnd(t);
    assert r != [] ==> r[0] == t[0];
    r
  }

  /** `strip()` leaves nothing exactly when the text is all whitespace. */
  lemma StripEmptyIff(s: string)
    ensures Strip(s) == [] <==> AllSpace(s)
  {
    var t := TrimStart(s);
    var a := |s| - |t|;
    TrimStartCuts(s);
    TrimEndCuts(t);
    if Strip(s) == [] {
      assert t[0..] == t;
      assert s[..a] == s;
    } else {
      assert Strip(s)[0] == t[0] == s[a];
    }
  }

  /** Where the stripped text starts inside `s`. */
  function StripStart(s: string): nat {
    |s| - |TrimStart(s)|
  }

  /** What `strip()` keeps is one contiguous slice of the text, with only whitespace around it. */
  lemma StripIsSlice(s: string)
    ensures var a, r := StripStart(s), Strip(s);
            a + |r| <= |s| && r == s[a..a + |r|] && AllSpace(s[..a]) && AllSpace(s[a + |r|..])
  {
    var t := TrimStart(s);
    var r := TrimEnd(t);
    assert Strip(s) == r && StripStart(s) == |s| - |t|;
    TrimStartCuts(s);
    TrimEndCuts(t);
    PrefixOfSuffix(s, t, r);
  }

  /** A prefix `r` of a suffix `t` of `s` is a slice of `s`, and what follows it in `t` follows it in `s`. */
  lemma PrefixOfSuffix(s: string, t: string, r: string)
    requires |t| <= |s| && t == s[|s| - |t|..] && |r| <= |t| && r == t[..|r|] && AllSpace(t[|r|..])
    ensures var a := |s| - |t|; r == s[a..a + |r|] && AllSpace(s[a + |r|..])
  {
    var a := |s| - |t|;
    assert t[|r|..] == s[a + |r|..];
  }

  /** Text with no whitespace at either end is left alone by `strip()`. */
  lemma StripStripped(s: string)
    requires IsStripped(s)
    ensures Strip(s) == s
  {
    if s != [] {
      assert TrimStart(s) == s;
      assert TrimEnd(s) == s;
    }
  }

  lemma StripIdempotent(s: string)
    ensures Strip(Strip(s)) == Strip(s)
  {
    StripStripped(Strip(s));
  }

  // ------------------------------------------------------ runs of blank lines

  /** The window of three characters at `i` is three newlines. */
  predicate TripleNewlineAt(s: string, i: nat)
    requires i + 3 <= |s|
  {
    s[i] == '\n' && s[i + 1] == '\n' && s[i + 2] == '\n'
  }

  /** `s` holds no run of three or more newlines. */
  predicate NoTripleNewline(s: string) {
    forall i: nat :: i + 3 <= |s| ==> !TripleNewlineAt(s, i)
  }

  lemma NoTripleNewlineConcat(a: string, b: string)
    requires NoTripleNewline(a) && NoTripleNewline(b)
    requires (b == [] || b[0] != '\n') || (a == [] || a[|a| - 1] != '\n')
    ensures NoTripleNewline(a + b)
  {
    var s := a + b;
    forall i: nat | i + 3 <= |s| ensures !TripleNewlineAt(s, i) {
      if i + 3 <= |a| {
        assert s[i..i + 3] == a[i..i + 3];
        assert !TripleNewlineAt(a, i);
      } else if |a| <= i {
        assert !TripleNewlineAt(b, i - |a|);
      } else if b != [] && b[0] != '\n' {
        assert s[|a|] == b[0];
      } else {
        assert s[|a| - 1] == a[|a| - 1];
      }
    }
  }

  lemma NoTripleNewlineSlice(s: string, lo: nat, hi: nat)
    requires lo <= hi <= |s| && NoTripleNewline(s)
    ensures NoTripleNewline(s[lo..hi])
  {
    var t := s[lo..hi];
    forall i: nat | i + 3 <= |t| ensures !TripleNewlineAt(t, i) {
      assert !TripleNewlineAt(s, lo + i);
    }
  }

  /** How many newlines `s` starts with. */
  function LeadingNewlines(s: string): (n: nat)
    ensures n <= |s| && (forall k :: 0 <= k < n ==> s[k] == '\n') && (n == |s| || s[n] != '\n')
  {
    if s != [] && s[0] == '\n' then 1 + LeadingNewlines(s[1..]) else 0
  }

  /** Python's `re.sub(r'\n{3,}', '\n\n', s)`: every maximal run of three or more newlines becomes two. */
  function CollapseNewlines(s: string): (r: string)
    ensures NoTripleNewline(r)
    ensures s != [] && s[0] != '\n' ==> r != [] && r[0] == s[0]
    decreases |s|
  {
    if s == [] then []
    else if s[0] != '\n' then
      var rest := CollapseNewlines(s[1..]);
      NoTripleNewlineConcat([s[0]], rest);
      [s[0]] + rest
    else
      var n := LeadingNewlines(s);
      var run := if n >= 3 then "\n\n" else s[..n];
      var rest := CollapseNewlines(s[n..]);
      NoTripleNewlineConcat(run, rest);
      run + rest
  }

  /** Text that already has no run of three newlines is left as it is. */
  lemma {:induction false} CollapseNewlinesKeepsClean(s: string)
    requires NoTripleNewline(s)
    ensures CollapseNewlines(s) == s
    decreases |s|
  {
    if s != [] {
      var n := if s[0] != '\n' then 1 else LeadingNewlines(s);
      NoTripleNewlineSlice(s, n, |s|);
      assert s[n..|s|] == s[n..];
      CollapseNewlinesKeepsClean(s[n..]);
      CollapseNewlinesFirstRun(s, n);
    }
  }

  /** In clean text, collapsing keeps the first character or newline run and goes on with the rest. */
  lemma CollapseNewlinesFirstRun(s: string, n: nat)
    requires s != [] && NoTripleNewline(s)
    requires n == if s[0] != '\n' then 1 else LeadingNewlines(s)
    ensures n <= |s| && CollapseNewlines(s) == s[..n] + CollapseNewlines(s[n..])
  {
    if s[0] == '\n' && n >= 3 {
      assert TripleNewlineAt(s, 0);
    }
  }

  lemma CollapseNewlinesIdempotent(s: string)
    ensures CollapseNewlines(CollapseNewlines(s)) == CollapseNewlines(s)
  {
    CollapseNewlinesKeepsClean(CollapseNewlines(s));
  }

  /** `k` newlines in a row. */
  function Newlines(k: nat): (r: string)
    ensures |r| == k && forall i :: 0 <= i < k ==> r[i] == '\n'
  {
    seq(k, _ => '\n')
  }

  /** The newlines `s` starts with are the `m` before its first other character. */
  lemma LeadingNewlinesAre(s: string, m: nat)
    requires m <= |s| && (forall k :: 0 <= k < m ==> s[k] == '\n') && (m == |s| || s[m] != '\n')
    ensures LeadingNewlines(s) == m
  {
  }

  /** Text starting with another character: the substitution keeps it and goes on with the rest. */
  lemma CollapseNewlinesStep(s: string)
    requires s != [] && s[0] != '\n'
    ensures CollapseNewlines(s) == [s[0]] + CollapseNewlines(s[1..])
  {
  }

  /** Text starting with newlines: the substitution rewrites that run and goes on with the rest. */
  lemma CollapseNewlinesRunStep(s: string, n: nat)
    requires s != [] && s[0] == '\n' && n == LeadingNewlines(s)
    ensures CollapseNewlines(s) == (if n >= 3 then "\n\n" else s[..n]) + CollapseNewlines(s[n..])
  {
  }

  /**
   * A character other than a newline is never part of a run: the substitution
   * keeps it and works on the text before it and the text after it apart.
   */
  lemma {:induction false} CollapseNewlinesAroundChar(a: string, c: char, b: string)
    requires c != '\n'
    ensures CollapseNewlines(a + [c] + b) == CollapseNewlines(a) + [c] + CollapseNewlines(b)
    decreases |a|
  {
    if a == [] {
      var s := a + [c] + b;
      assert s[1..] == b;
      CollapseNewlinesStep(s);
    } else if a[0] != '\n' {
      CollapseNewlinesAroundChar(a[1..], c, b);
      AroundCharFirst(a, c, b);
    } else {
      var n := LeadingNewlines(a);
      CollapseNewlinesAroundChar(a[n..], c, b);
      AroundCharRun(a, c, b, n);
    }
  }

  /** The step of `CollapseNewlinesAroundChar` past a first character that is not a newline. */
  lemma AroundCharFirst(a: string, c: char, b: string)
    requires c != '\n' && a != [] && a[0] != '\n'
    requires CollapseNewlines(a[1..] + [c] + b) == CollapseNewlines(a[1..]) + [c] + CollapseNewlines(b)
    ensures CollapseNewlines(a + [c] + b) == CollapseNewlines(a) + [c] + CollapseNewlines(b)
  {
    var s := a + [c] + b;
    FirstBeforeChar(a, c, b);
    CollapseNewlinesStep(s);
    CollapseNewlinesStep(a);
    Regroup([a[0]], CollapseNewlines(a[1..]), [c], CollapseNewlines(b));
  }

  /** The step of `CollapseNewlinesAroundChar` past a first run of `n` newlines. */
  lemma AroundCharRun(a: string, c: char, b: string, n: nat)
    requires c != '\n' && a != [] && a[0] == '\n' && n == LeadingNewlines(a)
    requires CollapseNewlines(a[n..] + [c] + b) == CollapseNewlines(a[n..]) + [c] + CollapseNewlines(b)
    ensures CollapseNewlines(a + [c] + b) == CollapseNewlines(a) + [c] + CollapseNewlines(b)
  {
    var s := a + [c] + b;
    RunBeforeChar(a, c, b, n);
    CollapseNewlinesRunStep(a, n);
    CollapseNewlinesRunStep(s, n);
    Regroup(if n >= 3 then "\n\n" else a[..n], CollapseNewlines(a[n..]), [c], CollapseNewlines(b));
  }

  /** The first character of `a` is the first of `a + [c] + b`, with the same text after it. */
  lemma FirstBeforeChar(a: string, c: char, b: string)
    requires a != []
    ensures var s := a + [c] + b; s[0] == a[0] && s[1..] == a[1..] + [c] + b
  {
    var s := a + [c] + b;
    assert s[1..] == a[1..] + [c] + b;
  }

  /** The first run of newlines of `a` is the first run of `a + [c] + b`, with the same text after it. */
  lemma RunBeforeChar(a: string, c: char, b: string, n: nat)
    requires c != '\n' && n == LeadingNewlines(a)
    ensures var s := a + [c] + b; LeadingNewlines(s) == n && s[..n] == a[..n] && s[n..] == a[n..] + [c] + b
  {
    var s := a + [c] + b;
    assert forall k :: 0 <= k < |a| ==> s[k] == a[k];
    assert s[|a|] == c;
    LeadingNewlinesAre(s, n);
    assert s[..n] == a[..n];
    assert s[n..] == a[n..] + [c] + b;
  }

  lemma Regroup(w: string, x: string, y: string, z: string)
    ensures w + (x + y + z) == w + x + y + z
  {
  }

  /** A whole run of `k` newlines becomes two when `k` is at least three and is kept as it is otherwise. */
  lemma CollapseNewlinesRun(k: nat, b: string)
    requires b == [] || b[0] != '\n'
    ensures CollapseNewlines(Newlines(k) + b) == (if k >= 3 then "\n\n" else Newlines(k)) + CollapseNewlines(b)
  {
    var s := Newlines(k) + b;
    if k > 0 {
      LeadingNewlinesAre(s, k);
      assert s[..k] == Newlines(k);
      assert s[k..] == b;
    } else {
      assert s == b;
    }
  }

  /** Collapsing blank-line runs and then stripping leaves no run of three newlines and no outer whitespace. */
  lemma CollapsedAndStrippedIsClean(s: string)
    ensures NoTripleNewline(Strip(CollapseNewlines(s)))
    ensures IsStripped(Strip(CollapseNewlines(s)))
  {
    StripKeepsClean(CollapseNewlines(s));
  }

  lemma StripKeepsClean(t: string)
    requires NoTripleNewline(t)
    ensures NoTripleNewline(Strip(t))
  {
    var a, r := StripStart(t), Strip(t);
    StripIsSlice(t);
    NoTripleNewlineSlice(t, a, a + |r|);
  }

  // ------------------------------------------------------------ substrings

  /** `p` occurs in `t` starting at index `i`. */
  predicate OccursAt(t: string, p: string, i: nat) {
    i + |p| <= |t| && t[i..i + |p|] == p
  }

  /** Python's `p in t`. */
  predicate Contains(t: string, p: string) {
    exists i: nat | i <= |t| :: OccursAt(t, p, i)
  }

  /** An occurrence inside a slice is an occurrence in the whole text. */
  lemma SliceOccurrence(t: string, p: string, lo: nat, hi: nat, i: nat)
    requires lo <= hi <= |t| && OccursAt(t[lo..hi], p, i)
    ensures OccursAt(t, p, lo + i)
  {
    var u := t[lo..hi];
    assert u[i..i + |p|] == t[lo + i..lo + i + |p|] by {
      forall k | lo + i <= k < lo + i + |p| ensures t[k] == u[k - lo] { }
    }
  }

  /** A slice of a text in which `p` does not occur holds no `p` either. */
  lemma SliceAvoids(t: string, p: string, lo: nat, hi: nat)
    requires lo <= hi <= |t| && !Contains(t, p)
    ensures !Contains(t[lo..hi], p)
  {
    forall i: nat | i <= hi - lo ensures !OccursAt(t[lo..hi], p, i) {
      if OccursAt(t[lo..hi], p, i) {
        SliceOccurrence(t, p, lo, hi, i);
      }
    }
  }

  /** What `strip()` leaves of a text in which `p` does not occur holds no `p`. */
  lemma StripAvoids(t: string, p: string)
    requires !Contains(t, p)
    ensures !Contains(Strip(t), p)
  {
    StripIsSlice(t);
    SliceAvoids(t, p, StripStart(t), StripStart(t) + |Strip(t)|);
  }

  // ------------------------------------------------------------ split and join

  /** Python's `sep.join(parts)`. */
  function Join(parts: seq<string>, sep: string): (r: string)
    ensures |parts| == 1 ==> r == parts[0]
  {
    if |parts| == 0 then ""
    else if |parts| == 1 then parts[0]
    else parts[0] + sep + Join(parts[1..], sep)
  }

  /**
   * Python's `s.split(sep)`: the pieces between the leftmost non-overlapping
   * occurrences of `sep`, scanning from the left.
   */
  function Split(s: string, sep: string): (r: seq<string>)
    requires sep != []
    ensures |r| >= 1 && |r[0]| <= |s| && r[0] == s[..|r[0]|]
    decreases |s|
  {
    if |s| < |sep| then [s]
    else if s[..|sep|] == sep then [""] + Split(s[|sep|..], sep)
    else
      var rest := Split(s[1..], sep);
      [[s[0]] + rest[0]] + rest[1..]
  }

  lemma JoinConsHead(c: char, parts: seq<string>, sep: string)
    requires |parts| >= 1
    ensures Join([[c] + parts[0]] + parts[1..], sep) == [c] + Join(parts, sep)
  {
    var q := [[c] + parts[0]] + parts[1..];
    if |parts| > 1 {
      assert q[1..] == parts[1..];
    }
  }

  /** Joining the pieces of a split with the same separator gives back the text. */
  lemma {:induction false} JoinSplit(s: string, sep: string)
    requires sep != []
    ensures Join(Split(s, sep), sep) == s
    decreases |s|
  {
    if |s| < |sep| {
    } else if s[..|sep|] == sep {
      var tail := s[|sep|..];
      var rest := Split(tail, sep);
      JoinSplit(tail, sep);
      assert Split(s, sep) == [""] + rest;
      assert ([""] + rest)[1..] == rest;
      calc {
        Join([""] + rest, sep);
        "" + sep + Join(rest, sep);
        sep + tail;
        s;
      }
    } else {
      var rest := Split(s[1..], sep);
      JoinSplit(s[1..], sep);
      assert Split(s, sep) == [[s[0]] + rest[0]] + rest[1..];
      JoinConsHead(s[0], rest, sep);
      assert [s[0]] + s[1..] == s;
    }
  }

  lemma ConsAvoidsSep(c: char, r0: string, sep: string)
    requires sep != [] && !Contains(r0, sep)
    requires |r0| + 1 >= |sep| ==> ([c] + r0)[..|sep|] != sep
    ensures !Contains([c] + r0, sep)
  {
    var p := [c] + r0;
    forall i: nat | i <= |p| && OccursAt(p, sep, i) ensures false {
      if i > 0 {
        assert p[i..i + |sep|] == r0[i - 1..i - 1 + |sep|];
        assert OccursAt(r0, sep, i - 1);
      }
    }
  }

  /** Where `sep` does not start the text, the first piece starts with the text's first character. */
  lemma SplitFirstPiece(s: string, sep: string)
    requires sep != [] && |s| >= |sep| && s[..|sep|] != sep
    ensures var r0 := Split(s[1..], sep)[0];
            Split(s, sep)[0] == [s[0]] + r0 && (|r0| + 1 >= |sep| ==> ([s[0]] + r0)[..|sep|] != sep)
  {
    var r0 := Split(s[1..], sep)[0];
    var p := [s[0]] + r0;
    assert r0 == s[1..][..|r0|];
    assert p == s[..|p|];
    if |p| >= |sep| {
      assert p[..|sep|] == s[..|sep|];
    }
  }

  /** No piece of a split contains the separator. */
  lemma {:induction false} SplitPiecesAvoidSep(s: string, sep: string)
    requires sep != []
    ensures forall k :: 0 <= k < |Split(s, sep)| ==> !Contains(Split(s, sep)[k], sep)
    decreases |s|
  {
    var r := Split(s, sep);
    if |s| < |sep| {
      forall i: nat | OccursAt(s, sep, i) ensures false { }
    } else if s[..|sep|] == sep {
      SplitPiecesAvoidSep(s[|sep|..], sep);
      assert !OccursAt("", sep, 0);
      assert forall k :: 1 <= k < |r| ==> r[k] == Split(s[|sep|..], sep)[k - 1];
    } else {
      SplitPiecesAvoidSep(s[1..], sep);
      SplitFirstPiece(s, sep);
      ConsAvoidsSep(s[0], Split(s[1..], sep)[0], sep);
      assert forall k :: 1 <= k < |r| ==> r[k] == Split(s[1..], sep)[k];
    }
  }

  lemma SplitAfterPiece(p: string, c: char, rest: string)
    requires c !in p
    ensures Split(p + [c] + rest, [c]) == [p] + Split(rest, [c])
    decreases |p|
  {
    var s := p + [c] + rest;
    if p == [] {
      assert s[..1] == [c];
      assert s[1..] == rest;
    } else {
      assert s[0] == p[0] && p[0] != c;
      assert s[..1] != [c];
      assert s[1..] == p[1..] + [c] + rest;
      SplitAfterPiece(p[1..], c, rest);
      assert [p[0]] + p[1..] == p;
    }
  }

  lemma SplitWithoutSep(p: string, c: char)
    requires c !in p
    ensures Split(p, [c]) == [p]
    decreases |p|
  {
    if p != [] {
      assert p[0] != c;
      assert p[..1] != [c];
      SplitWithoutSep(p[1..], c);
      assert [p[0]] + p[1..] == p;
    }
  }

  /** Splitting on a one-character separator that no part contains undoes the join. */
  lemma {:induction false} SplitJoinChar(parts: seq<string>, c: char)
    requires |parts| >= 1
    requires forall k :: 0 <= k < |parts| ==> c !in parts[k]
    ensures Split(Join(parts, [c]), [c]) == parts
    decreases |parts|
  {
    if |parts| == 1 {
      SplitWithoutSep(parts[0], c);
    } else {
      SplitJoinChar(parts[1..], c);
      SplitAfterPiece(parts[0], c, Join(parts[1..], [c]));
      assert parts[0] + [c] + Join(parts[1..], [c]) == Join(parts, [c]);
      assert [parts[0]] + parts[1..] == parts;
    }
  }

  // ------------------------------------------------------------ replace

  /** Python's `s.replace(p, "")`: every leftmost non-overlapping occurrence of `p` is cut out. */
  function RemoveAll(s: string, p: string): (r: string)
    requires p != []
    ensures |r| <= |s|
    decreases |s|
  {
    if |s| < |p| then s
    else if s[..|p|] == p then RemoveAll(s[|p|..], p)
    else [s[0]] + RemoveAll(s[1..], p)
  }

  /**
   * `s.replace(p, "")` is `"".join(s.split(p))`: what survives is exactly the
   * pieces between the removed occurrences, and those pieces joined back with
   * `p` rebuild `s` (JoinSplit).
   */
  lemma {:induction false} RemoveAllIsSplitConcat(s: string, p: string)
    requires p != []
    ensures RemoveAll(s, p) == Join(Split(s, p), "")
    decreases |s|
  {
    if |s| < |p| {
    } else if s[..|p|] == p {
      RemoveAllIsSplitConcat(s[|p|..], p);
      assert ([""] + Split(s[|p|..], p))[1..] == Split(s[|p|..], p);
    } else {
      RemoveAllIsSplitConcat(s[1..], p);
      JoinConsHead(s[0], Split(s[1..], p), "");
    }
  }

  /** A text without the pattern is unchanged by the replacement. */
  lemma {:induction false} RemoveAllAbsent(s: string, p: string)
    requires p != [] && !Contains(s, p)
    ensures RemoveAll(s, p) == s
    decreases |s|
  {
    if |s| >= |p| {
      assert !OccursAt(s, p, 0);
      forall i: nat | OccursAt(s[1..], p, i) ensures false {
        assert s[1..][i..i + |p|] == s[i + 1..i + 1 + |p|];
        assert OccursAt(s, p, i + 1);
      }
      RemoveAllAbsent(s[1..], p);
      assert [s[0]] + s[1..] == s;
    }
  }

  /**
   * The replacement can splice a new occurrence out of the text on both
   * sides of a removed one, so its result need not be free of the pattern.
   */
  lemma RemovalCanSplice()
    ensures RemoveAll("aabb", "ab") == "ab" && Contains(RemoveAll("aabb", "ab"), "ab")
  {
    var s := "aabb";
    assert s[1] == 'a';
    assert s[..2] != "ab" by { assert s[..2][1] == 'a'; }
    assert s[1..] == "abb";
    assert s[1..][..2] == "ab" && s[1..][2..] == "b";
    assert RemoveAll("b", "ab") == "b";
    assert OccursAt("ab", "ab", 0);
  }

  // ------------------------------------------------------------ numbers

  predicate IsDigit(c: char) {
    '0' <= c <= '9'
  }

  predicate AllDigits(s: string) {
    forall k :: 0 <= k < |s| ==> IsDigit(s[k])
  }

  function DigitChar(d: nat): (c: char)
    requires d < 10
    ensures IsDigit(c)
  {
    (48 + d) as char
  }

  function DigitValue(c: char): (d: nat)
    requires IsDigit(c)
    ensures d < 10 && DigitChar(d) == c
  {
    (c as int) - 48
  }

  /** The number a string of decimal digits denotes. */
  function DigitsValue(s: string): nat
    requires AllDigits(s)
  {
    if s == [] then 0 else 10 * DigitsValue(s[..|s| - 1]) + DigitValue(s[|s| - 1])
  }

  /** Python's `str(n)` for `n >= 0`. */
  function NatToString(n: nat): (r: string)
    ensures r != [] && AllDigits(r)
    decreases n
  {
    if n < 10 then [DigitChar(n)] else NatToString(n / 10) + [DigitChar(n % 10)]
  }

  /** Python's `str(i)`. */
  function IntToString(i: int): string {
    if i < 0 then "-" + NatToString(-i) else NatToString(i)
  }

  /** Python's `int(t)` on an already stripped `t`: an optional sign and ASCII digits. */
  function ParseInt(t: string): (r: Option<int>)
    ensures r.Some? ==> t != []
  {
    if |t| > 1 && (t[0] == '-' || t[0] == '+') && AllDigits(t[1..]) then
      var v: int := DigitsValue(t[1..]);
      Some(if t[0] == '-' then -v else v)
    else if t != [] && AllDigits(t) then Some(DigitsValue(t))
    else None
  }

  lemma {:induction false} DigitsValueOfNatToString(n: nat)
    ensures DigitsValue(NatToString(n)) == n
    decreases n
  {
    if n >= 10 {
      DigitsValueOfNatToString(n / 10);
      var s := NatToString(n);
      assert s[..|s| - 1] == NatToString(n / 10);
    }
  }

  /** `int(str(i)) == i`: the decimal text the bot prints is read back as the same number. */
  lemma ParseIntRoundTrip(i: int)
    ensures ParseInt(IntToString(i)) == Some(i)
  {
    if i < 0 {
      DigitsValueOfNatToString(-i);
      assert IntToString(i)[1..] == NatToString(-i);
    } else {
      DigitsValueOfNatToString(i);
    }
  }

  /** `str(i)` has no whitespace to strip. */
  lemma IntToStringStripped(i: int)
    ensures IsStripped(IntToString(i))
  {
    var r := IntToString(i);
    var d := NatToString(if i < 0 then -i else i);
    assert r[|r| - 1] == d[|d| - 1];
  }

  /** `n` written with exactly two digits, as `strftime("%H")`, `"%M"`, `"%m"` and `"%d"` do. */
  function Pad2(n: nat): (r: string)
    requires n < 100
    ensures |r| == 2 && AllDigits(r)
  {
    [DigitChar(n / 10), DigitChar(n % 10)]
  }

  /** Two digits determine the number they were padded from. */
  lemma Pad2Injective(m: nat, n: nat)
    requires m < 100 && n < 100 && Pad2(m) == Pad2(n)
    ensures m == n
  {
    assert DigitValue(Pad2(m)[0]) == m / 10 && DigitValue(Pad2(m)[1]) == m % 10;
    assert DigitValue(Pad2(n)[0]) == n / 10 && DigitValue(Pad2(n)[1]) == n % 10;
  }

  /** `n` written with exactly four digits, as `strftime("%Y")` does for years 1000 to 9999. */
  function Pad4(n: nat): (r: string)
    requires n < 10000
    ensures |r| == 4 && AllDigits(r)
  {
    Pad2(n / 100) + Pad2(n % 100)
  }
}
