/**
 * The regular expressions `/date:\s*(.+?)\s*-->/`, `/readTime:\s*(.+?)\s*-->/`
 * and `/tags:\s*(.+?)\s*-->/` that the blog-post loader applies to a trimmed
 * metadata comment, all of the shape `<name>\s*(.+?)\s*-->`, and
 * `String.prototype.match` with them: the first match found by JavaScript's
 * backtracking matcher, scanning start positions left to right. At one start
 * position the greedy `\s*` first takes its longest run and gives characters
 * back only when nothing matches after it; the lazy `(.+?)` takes one
 * character, then one more at a time, and cannot take a line terminator.
 */
module CommentPattern {
  import opened Wrappers
  import opened JsString

  /** The literal `-->` that ends a metadata comment stands in `s` at `x`. */
  predicate CloseAt(s: string, x: nat) {
    x + 3 <= |s| && s[x] == '-' && s[x + 1] == '-' && s[x + 2] == '>'
  }

  /** The literal `name` stands in `s` at `p`. */
  predicate NameAt(s: string, name: string, p: nat) {
    p + |name| <= |s| && s[p..p + |name|] == name
  }

  /** The length of the whitespace run of `s` starting at `i`: what a greedy `\s*` takes first. */
  function SpaceRun(s: string, i: nat): (n: nat)
    requires i <= |s|
    ensures i + n <= |s|
    decreases |s| - i
  {
    if i < |s| && IsSpace(s[i]) then 1 + SpaceRun(s, i + 1) else 0
  }

  /** The run is all whitespace and is followed by the end of `s` or by a character that is not. */
  lemma {:induction false} SpaceRunIsMaximal(s: string, i: nat)
    requires i <= |s|
    ensures forall k :: i <= k < i + SpaceRun(s, i) ==> IsSpace(s[k])
    ensures i + SpaceRun(s, i) == |s| || !IsSpace(s[i + SpaceRun(s, i)])
    decreases |s| - i
  {
    if i < |s| && IsSpace(s[i]) {
      SpaceRunIsMaximal(s, i + 1);
    }
  }

  /**
   * `\s*-->` matches at `e`. A greedy `\s*` that gives back characters leaves
   * a whitespace character in front of the `-` of `-->`, so only its longest
   * run can be followed by `-->`.
   */
  predicate ClosesAt(s: string, e: nat)
    requires e <= |s|
  {
    CloseAt(s, e + SpaceRun(s, e))
  }

  /**
   * The lazy `(.+?)` that has already taken `s[..e]` up to `e`: it stops at the
   * first end from `e` on where `\s*-->` matches, and fails at a line
   * terminator or at the end of `s`.
   */
  function LazyEnd(s: string, e: nat): (r: Option<nat>)
    requires e <= |s|
    ensures r.Some? ==> e <= r.value <= |s| && ClosesAt(s, r.value)
    decreases |s| - e
  {
    if ClosesAt(s, e) then Some(e)
    else if e < |s| && !IsLineTerminator(s[e]) then LazyEnd(s, e + 1)
    else None
  }

  /** `(.+?)\s*-->` from `start`: the end of the capture, which holds at least one character. */
  function CaptureEnd(s: string, start: nat): (r: Option<nat>)
    requires start <= |s|
    ensures r.Some? ==> start < r.value <= |s| && ClosesAt(s, r.value)
  {
    if start < |s| && !IsLineTerminator(s[start]) then LazyEnd(s, start + 1) else None
  }

  /**
   * `\s*(.+?)\s*-->` after the name, which ends at `q`, with the leading `\s*`
   * holding `a` characters and giving them back one at a time: the bounds of
   * the capture.
   */
  function AfterName(s: string, q: nat, a: nat): (r: Option<(nat, nat)>)
    requires q + a <= |s|
    ensures r.Some? ==> q <= r.value.0 <= q + a
    ensures r.Some? ==> CaptureEnd(s, r.value.0) == Some(r.value.1)
    decreases a
  {
    match CaptureEnd(s, q + a)
    case Some(e) => Some((q + a, e))
    case None => if a == 0 then None else AfterName(s, q, a - 1)
  }

  /** The lazy capture never takes a line terminator. */
  lemma {:induction false} LazyEndSound(s: string, e: nat)
    requires e <= |s| && LazyEnd(s, e).Some?
    ensures forall k :: e <= k < LazyEnd(s, e).value ==> !IsLineTerminator(s[k])
    decreases |s| - e
  {
    if !ClosesAt(s, e) {
      LazyEndSound(s, e + 1);
    }
  }

  /** The capture holds no line terminator. */
  lemma CaptureEndSound(s: string, start: nat)
    requires start <= |s| && CaptureEnd(s, start).Some?
    ensures forall k :: start <= k < CaptureEnd(s, start).value ==> !IsLineTerminator(s[k])
  {
    LazyEndSound(s, start + 1);
  }

  /** The pattern `name\s*(.+?)\s*-->` matches `s` from `p` with capture `s[start..e]`. */
  ghost predicate MatchesAt(s: string, name: string, p: nat, start: nat, e: nat) {
    && p + |name| <= start < e <= |s|
    && NameAt(s, name, p)
    && (forall k :: p + |name| <= k < start ==> IsSpace(s[k]))
    && (forall k :: start <= k < e ==> !IsLineTerminator(s[k]))
    && ClosesAt(s, e)
  }

  /** Some substring of `s` matches the pattern. */
  ghost predicate Matches(s: string, name: string) {
    exists p: nat, start: nat, e: nat :: MatchesAt(s, name, p, start, e)
  }

  /**
   * The match `String.prototype.match` reports, among those starting at `from`
   * or later: no match starts before `p`; at `p` the leading `\s*` keeps as
   * much whitespace as a match allows, so the capture starts as late as it
   * can; and from that start the lazy `(.+?)` ends as early as it can.
   */
  ghost predicate LeftmostMatch(s: string, name: string, from: nat, p: nat, start: nat, e: nat) {
    && from <= p
    && MatchesAt(s, name, p, start, e)
    && (forall q: nat, st: nat, en: nat :: from <= q < p ==> !MatchesAt(s, name, q, st, en))
    && (forall st: nat, en: nat :: MatchesAt(s, name, p, st, en) ==> st <= start)
    && (forall en: nat :: MatchesAt(s, name, p, start, en) ==> e <= en)
  }

  /** The search for the leftmost match, at start positions from `p` on: the bounds of its capture. */
  function MatchFrom(s: string, name: string, p: nat): (r: Option<(nat, nat)>)
    requires p <= |s|
    ensures r.Some? ==> r.value.0 < r.value.1 <= |s|
    decreases |s| - p
  {
    var here :=
      if NameAt(s, name, p) then AfterName(s, p + |name|, SpaceRun(s, p + |name|)) else None;
    if here.Some? then here
    else if p < |s| then MatchFrom(s, name, p + 1)
    else None
  }

  /** The description of the reported match leaves no choice: it fixes one position and one capture. */
  lemma LeftmostMatchUnique(s: string, name: string, from: nat, p1: nat, st1: nat, e1: nat, p2: nat, st2: nat, e2: nat)
    requires LeftmostMatch(s, name, from, p1, st1, e1) && LeftmostMatch(s, name, from, p2, st2, e2)
    ensures p1 == p2 && st1 == st2 && e1 == e2
  {
  }

  /** What the search finds is the match JavaScript reports: the leftmost, with the latest capture start and then the earliest end. */
  lemma {:induction false} MatchFromSound(s: string, name: string, p: nat)
    requires p <= |s| && MatchFrom(s, name, p).Some?
    ensures var (start, e) := MatchFrom(s, name, p).value;
      exists p': nat :: LeftmostMatch(s, name, p, p', start, e)
    decreases |s| - p
  {
    var (start, e) := MatchFrom(s, name, p).value;
    var q := p + |name|;
    if NameAt(s, name, p) && AfterName(s, q, SpaceRun(s, q)).Some? {
      MatchHereIsLeftmost(s, name, p);
    } else {
      MatchFromSound(s, name, p + 1);
      var p' :| LeftmostMatch(s, name, p + 1, p', start, e);
      forall st: nat, en: nat ensures !MatchesAt(s, name, p, st, en) {
        HereFindsMatch(s, name, p, st, en);
      }
      LeftmostSkip(s, name, p, p', start, e);
    }
  }

  /** Where the search stops at its start position, it returns the match JavaScript reports there. */
  lemma MatchHereIsLeftmost(s: string, name: string, p: nat)
    requires NameAt(s, name, p) && AfterName(s, p + |name|, SpaceRun(s, p + |name|)).Some?
    ensures var (start, e) := AfterName(s, p + |name|, SpaceRun(s, p + |name|)).value;
      LeftmostMatch(s, name, p, p, start, e)
  {
    var q := p + |name|;
    var (start, e) := AfterName(s, q, SpaceRun(s, q)).value;
    CaptureEndSound(s, start);
    SpaceRunIsMaximal(s, q);
    assert MatchesAt(s, name, p, start, e);
    forall st: nat, en: nat | MatchesAt(s, name, p, st, en) ensures st <= start {
      HereFindsMatch(s, name, p, st, en);
    }
    forall en: nat | MatchesAt(s, name, p, start, en) ensures e <= en {
      CaptureEndLeast(s, start, en);
    }
  }

  /** A position that holds no match can be skipped: the reported match from the next position is also the one from here. */
  lemma LeftmostSkip(s: string, name: string, p: nat, p': nat, start: nat, e: nat)
    requires forall st: nat, en: nat :: !MatchesAt(s, name, p, st, en)
    requires LeftmostMatch(s, name, p + 1, p', start, e)
    ensures LeftmostMatch(s, name, p, p', start, e)
  {
    forall q0: nat, st: nat, en: nat | p <= q0 < p' ensures !MatchesAt(s, name, q0, st, en) {
      if q0 > p {
        assert p + 1 <= q0 < p';
      }
    }
  }

  /** `s.match(/name\s*(.+?)\s*-->/)?.[1]`: the capture of the leftmost match, which is never empty. */
  function Capture(s: string, name: string): (r: Option<string>)
    ensures r.Some? ==> r.value != []
  {
    match MatchFrom(s, name, 0)
    case Some((start, e)) => Some(s[start..e])
    case None => None
  }

  /**
   * There is a capture exactly when some substring of `s` matches the pattern;
   * the capture then holds no line terminator and is the group of the match
   * JavaScript reports.
   */
  lemma CaptureMeaning(s: string, name: string)
    ensures Capture(s, name).Some? <==> Matches(s, name)
    ensures Capture(s, name).Some? ==> forall k :: 0 <= k < |Capture(s, name).value| ==> !IsLineTerminator(Capture(s, name).value[k])
    ensures Capture(s, name).Some? ==> exists p: nat, start: nat, e: nat :: LeftmostMatch(s, name, 0, p, start, e) && Capture(s, name).value == s[start..e]
  {
    CaptureComplete(s, name);
    CaptureSound(s, name);
  }

  lemma CaptureComplete(s: string, name: string)
    ensures Matches(s, name) ==> Capture(s, name).Some?
  {
    if Matches(s, name) {
      var p, start, e :| MatchesAt(s, name, p, start, e);
      MatchFromFinds(s, name, 0, p, start, e);
    }
  }

  lemma CaptureSound(s: string, name: string)
    ensures Capture(s, name).Some? ==> forall k :: 0 <= k < |Capture(s, name).value| ==> !IsLineTerminator(Capture(s, name).value[k])
    ensures Capture(s, name).Some? ==> exists p: nat, start: nat, e: nat :: LeftmostMatch(s, name, 0, p, start, e) && Capture(s, name).value == s[start..e]
  {
    match MatchFrom(s, name, 0)
    case Some((start, e)) =>
      MatchFromSound(s, name, 0);
      assert forall k :: 0 <= k < e - start ==> s[start..e][k] == s[start + k];
    case None =>
  }

  // ---------------------------------------------------------------- completeness

  /** The lazy capture reaches an end where `\s*-->` matches if no line terminator lies before it. */
  lemma {:induction false} LazyEndFinds(s: string, e: nat, e0: nat)
    requires e <= e0 <= |s| && ClosesAt(s, e0)
    requires forall k :: e <= k < e0 ==> !IsLineTerminator(s[k])
    ensures LazyEnd(s, e).Some?
    decreases e0 - e
  {
    if !ClosesAt(s, e) {
      LazyEndFinds(s, e + 1, e0);
    }
  }

  /** The capture from `start` finds an end if one can be reached without a line terminator. */
  lemma CaptureEndFinds(s: string, start: nat, e: nat)
    requires start < e <= |s| && ClosesAt(s, e)
    requires forall k :: start <= k < e ==> !IsLineTerminator(s[k])
    ensures CaptureEnd(s, start).Some?
  {
    assert !IsLineTerminator(s[start]);
    LazyEndFinds(s, start + 1, e);
  }

  /** The leading `\s*`, giving characters back, reaches any shorter run that a capture can follow. */
  lemma {:induction false} AfterNameFinds(s: string, q: nat, a: nat, start: nat)
    requires q <= start <= q + a <= |s|
    requires CaptureEnd(s, start).Some?
    ensures AfterName(s, q, a).Some?
    decreases a
  {
    if CaptureEnd(s, q + a).None? {
      AfterNameFinds(s, q, a - 1, start);
    }
  }

  /** The search at the start position of a match succeeds there. */
  lemma MatchHere(s: string, name: string, p: nat, start: nat, e: nat)
    requires MatchesAt(s, name, p, start, e)
    ensures MatchFrom(s, name, p).Some?
  {
    SpaceRunCovers(s, p + |name|, start);
    CaptureEndFinds(s, start, e);
    SearchStopsAt(s, name, p, start);
  }

  /** The greedy `\s*` takes at least any whitespace run the pattern can use. */
  lemma SpaceRunCovers(s: string, i: nat, j: nat)
    requires i <= j <= |s|
    requires forall k :: i <= k < j ==> IsSpace(s[k])
    ensures j <= i + SpaceRun(s, i)
  {
    SpaceRunIsMaximal(s, i);
    var n := SpaceRun(s, i);
    assert i + n == |s| || !IsSpace(s[i + n]);
  }

  /** Where the name stands and a capture can follow its whitespace, the search stops. */
  lemma SearchStopsAt(s: string, name: string, p: nat, start: nat)
    requires NameAt(s, name, p)
    requires p + |name| <= start <= p + |name| + SpaceRun(s, p + |name|)
    requires CaptureEnd(s, start).Some?
    ensures MatchFrom(s, name, p).Some?
  {
    AfterNameFinds(s, p + |name|, SpaceRun(s, p + |name|), start);
  }

  /** The leftmost-match search succeeds whenever some match starts at or after `p`. */
  lemma {:induction false} MatchFromFinds(s: string, name: string, p: nat, p0: nat, start: nat, e: nat)
    requires p <= p0 && MatchesAt(s, name, p0, start, e)
    ensures MatchFrom(s, name, p).Some?
    decreases p0 - p
  {
    if p == p0 {
      MatchHere(s, name, p, start, e);
    } else {
      MatchFromFinds(s, name, p + 1, p0, start, e);
    }
  }

  /** The lazy capture stops no later than any end it can reach. */
  lemma {:induction false} LazyEndLeast(s: string, e: nat, en: nat)
    requires e <= en <= |s| && ClosesAt(s, en)
    requires forall k :: e <= k < en ==> !IsLineTerminator(s[k])
    ensures LazyEnd(s, e).Some? && LazyEnd(s, e).value <= en
    decreases en - e
  {
    if !ClosesAt(s, e) {
      LazyEndLeast(s, e + 1, en);
    }
  }

  /** The capture from `start` ends no later than any end a match from `start` can have. */
  lemma CaptureEndLeast(s: string, start: nat, en: nat)
    requires start < en <= |s| && ClosesAt(s, en)
    requires forall k :: start <= k < en ==> !IsLineTerminator(s[k])
    ensures CaptureEnd(s, start).Some? && CaptureEnd(s, start).value <= en
  {
    assert !IsLineTerminator(s[start]);
    LazyEndLeast(s, start + 1, en);
  }

  /** Giving whitespace back one character at a time, the leading `\s*` stops at the latest start a capture can follow. */
  lemma {:induction false} AfterNameLargest(s: string, q: nat, a: nat, st: nat)
    requires q <= st <= q + a <= |s|
    requires CaptureEnd(s, st).Some?
    ensures AfterName(s, q, a).Some? && st <= AfterName(s, q, a).value.0
    decreases a
  {
    if CaptureEnd(s, q + a).None? {
      AfterNameLargest(s, q, a - 1, st);
    }
  }

  /** A match at `p` makes the search stop at `p`, with a capture starting no earlier than the match's. */
  lemma HereFindsMatch(s: string, name: string, p: nat, st: nat, en: nat)
    ensures MatchesAt(s, name, p, st, en) ==>
      && NameAt(s, name, p)
      && p + |name| + SpaceRun(s, p + |name|) <= |s|
      && AfterName(s, p + |name|, SpaceRun(s, p + |name|)).Some?
      && st <= AfterName(s, p + |name|, SpaceRun(s, p + |name|)).value.0
  {
    if MatchesAt(s, name, p, st, en) {
      SpaceRunCovers(s, p + |name|, st);
      CaptureEndLeast(s, st, en);
      AfterNameLargest(s, p + |name|, SpaceRun(s, p + |name|), st);
    }
  }

  // ---------------------------------------------------------------- the documented comment form

  /** `value` may stand in a comment `<!-- name value -->` and be read back whole. */
  predicate PlainValue(value: string) {
    && value != []
    && !IsSpace(value[0]) && !IsSpace(value[|value| - 1])
    && (forall k :: 0 <= k < |value| ==> !IsLineTerminator(value[k]))
    && (forall k :: 0 <= k < |value| ==> !CloseAt(value, k))
  }

  /** The metadata comment line as an author writes it: `<!-- name value -->`. */
  function Comment(name: string, value: string): string {
    "<!-- " + name + " " + value + " -->"
  }

  /** In `<!-- name value -->`, no end inside `value` is followed by `\s*-->`. */
  lemma NoEarlyClose(s: string, start: nat, value: string, e: nat)
    requires PlainValue(value)
    requires start + |value| + 4 == |s| && s[start..start + |value|] == value && s[start + |value|] == ' '
    requires start < e < start + |value|
    ensures !ClosesAt(s, e)
  {
    var x := e + SpaceRun(s, e);
    var end := start + |value|;
    SpaceRunIsMaximal(s, e);
    assert !IsSpace(s[end - 1]) by {
      assert value[|value| - 1] == s[end - 1];
    }
    assert x < end;
    if x + 3 <= end {
      assert s[x] == value[x - start] && s[x + 1] == value[x - start + 1] && s[x + 2] == value[x - start + 2];
      assert !CloseAt(value, x - start);
    }
  }

  /** The lazy capture started inside `value` stops exactly at its end. */
  lemma {:induction false} LazyEndAtValueEnd(s: string, start: nat, value: string, e: nat)
    requires PlainValue(value)
    requires start + |value| + 4 == |s| && s[start..start + |value|] == value
    requires var end := start + |value|; s[end] == ' ' && s[end + 1] == '-' && s[end + 2] == '-' && s[end + 3] == '>'
    requires start < e <= start + |value|
    ensures LazyEnd(s, e) == Some(start + |value|)
    decreases start + |value| - e
  {
    var end := start + |value|;
    if e == end {
      assert SpaceRun(s, end + 1) == 0;
      assert SpaceRun(s, end) == 1;
    } else {
      NoEarlyClose(s, start, value, e);
      assert s[e] == value[e - start];
      LazyEndAtValueEnd(s, start, value, e + 1);
    }
  }

  /**
   * A comment written in the documented form `<!-- name value -->` yields its
   * value: the capture is exactly `value`, with the single spaces around it
   * left out.
   */
  lemma CommentRoundTrip(name: string, value: string)
    requires |name| > 0 && 'a' <= name[0] <= 'z'
    requires PlainValue(value)
    ensures Capture(Comment(name, value), name) == Some(value)
  {
    var s := Comment(name, value);
    var start := 6 + |name|;
    CommentSearchSkipsOpening(name, value);
    CommentMatchesAtName(name, value);
    assert s[start..start + |value|] == value;
  }

  /** No match of the pattern starts inside the opening `<!-- `. */
  lemma CommentSearchSkipsOpening(name: string, value: string)
    requires |name| > 0 && 'a' <= name[0] <= 'z'
    ensures MatchFrom(Comment(name, value), name, 0) == MatchFrom(Comment(name, value), name, 5)
  {
    var s := Comment(name, value);
    assert s[..5] == "<!-- ";
    forall p | 0 <= p < 5 ensures !NameAt(s, name, p) {
      assert s[p] == s[..5][p];
      assert p + |name| <= |s| ==> s[p..p + |name|][0] == s[p];
    }
    assert MatchFrom(s, name, 4) == MatchFrom(s, name, 5);
    assert MatchFrom(s, name, 3) == MatchFrom(s, name, 4);
    assert MatchFrom(s, name, 2) == MatchFrom(s, name, 3);
    assert MatchFrom(s, name, 1) == MatchFrom(s, name, 2);
  }

  /** Where each part of `<!-- name value -->` stands. */
  predicate CommentLayout(s: string, name: string, value: string) {
    var start := 6 + |name|;
    var end := start + |value|;
    && |s| == end + 4
    && s[5..5 + |name|] == name && s[5 + |name|] == ' '
    && s[start..end] == value
    && s[end] == ' ' && s[end + 1] == '-' && s[end + 2] == '-' && s[end + 3] == '>'
  }

  lemma CommentHasLayout(name: string, value: string)
    ensures CommentLayout(Comment(name, value), name, value)
  {
    var s := Comment(name, value);
    assert s == "<!-- " + name + " " + value + " -->";
  }

  /** At the name, the whitespace run is the one space and the capture is the value. */
  lemma CommentMatchesAtName(name: string, value: string)
    requires PlainValue(value)
    ensures MatchFrom(Comment(name, value), name, 5) == Some((6 + |name|, 6 + |name| + |value|))
  {
    CommentHasLayout(name, value);
    LayoutMatchesAtName(Comment(name, value), name, value);
  }

  lemma LayoutMatchesAtName(s: string, name: string, value: string)
    requires PlainValue(value) && CommentLayout(s, name, value)
    ensures MatchFrom(s, name, 5) == Some((6 + |name|, 6 + |name| + |value|))
  {
    var q := 5 + |name|;
    var start := q + 1;
    assert NameAt(s, name, 5);
    assert s[start] == value[0];
    assert SpaceRun(s, start) == 0;
    assert SpaceRun(s, q) == 1;
    LazyEndAtValueEnd(s, start, value, start + 1);
    assert CaptureEnd(s, start) == Some(start + |value|);
    assert AfterName(s, q, 1) == Some((start, start + |value|));
    SearchResultAt(s, name, 5, q, start, start + |value|);
  }

  /** Where the name stands and the rest of the pattern matches after it, the search returns that match. */
  lemma SearchResultAt(s: string, name: string, p: nat, q: nat, start: nat, e: nat)
    requires NameAt(s, name, p) && q == p + |name|
    requires AfterName(s, q, SpaceRun(s, q)) == Some((start, e))
    ensures MatchFrom(s, name, p) == Some((start, e))
  {
  }
}
