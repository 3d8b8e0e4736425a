/**
 * The string operations the chat-command interpreter and the list views rely on,
 * written out over `seq<char>`: `trim`, `replace` with a string pattern, the global
 * regular-expression replacements `/@\w+/g`, `/#\w+/g` and
 * `/#\w+|\b(P[1-3]|UI|UX|BUG)\b/g`, the first-match searches `/#\w+/` and
 * `/\b(P[1-3]|UI|UX|BUG)\b/`, ASCII lower-casing and `includes`.
 *
 * `\w` is `[A-Za-z0-9_]` (no `u` flag), and `\b` is decided on the ORIGINAL string:
 * a global replace scans the input left to right and tests boundaries against the
 * input, not against the text produced so far. That is why the scanners below walk
 * an index over the whole input instead of recursing on suffixes.
 */
module Text {
  import opened Wrappers

  /** `\w` of a JavaScript regular expression without the `u` flag. */
  predicate IsWordChar(c: char) {
    ('a' <= c <= 'z') || ('A' <= c <= 'Z') || ('0' <= c <= '9') || c == '_'
  }

  /**
   * ECMAScript WhiteSpace and LineTerminator: what `String.prototype.trim` removes.
   * U+0009..U+000D are tab, line feed, vertical tab, form feed and carriage return.
   */
  predicate IsSpace(c: char) {
    || c == ' ' || ('\t' <= c <= '\r') || c == '\U{00A0}' || c == '\U{1680}'
    || ('\U{2000}' <= c <= '\U{200A}') || c == '\U{2028}' || c == '\U{2029}'
    || c == '\U{202F}' || c == '\U{205F}' || c == '\U{3000}' || c == '\U{FEFF}'
  }

  predicate AllSpace(s: string) {
    forall i :: 0 <= i < |s| ==> IsSpace(s[i])
  }

  // ---------------------------------------------------------------- trim

  /** Length of the longest all-whitespace prefix. */
  function LeadingSpaces(s: string): (n: nat)
    ensures n <= |s|
    ensures AllSpace(s[..n])
    ensures n < |s| ==> !IsSpace(s[n])
  {
    if |s| == 0 || !IsSpace(s[0]) then 0
    else
      var n := 1 + LeadingSpaces(s[1..]);
      assert forall i :: 1 <= i < n ==> s[i] == s[1..][i - 1];
      n
  }

  /** Length of the longest all-whitespace suffix. */
  function TrailingSpaces(s: string): (n: nat)
    ensures n <= |s|
    ensures AllSpace(s[|s| - n..])
    ensures n < |s| ==> !IsSpace(s[|s| - n - 1])
  {
    if |s| == 0 || !IsSpace(s[|s| - 1]) then 0
    else
      var m := TrailingSpaces(s[..|s| - 1]);
      AllSpaceSnoc(s, m);
      assert m < |s| - 1 ==> s[..|s| - 1][|s| - 1 - m - 1] == s[|s| - (m + 1) - 1];
      m + 1
  }

  /** A whitespace suffix of `s` without its last character grows by that character when it is whitespace. */
  lemma AllSpaceSnoc(s: string, m: nat)
    requires 0 < |s| && m <= |s| - 1 && IsSpace(s[|s| - 1])
    requires AllSpace(s[..|s| - 1][|s| - 1 - m..])
    ensures AllSpace(s[|s| - (m + 1)..])
  {
    var p, q := s[..|s| - 1][|s| - 1 - m..], s[|s| - (m + 1)..];
    forall k | 0 <= k < m + 1
      ensures IsSpace(q[k])
    {
      if k < m {
        assert q[k] == p[k];
      }
    }
  }

  /** `s.trim()`: `s` without its leading and trailing whitespace. */
  function Trim(s: string): string {
    var t := s[LeadingSpaces(s)..];
    t[..|t| - TrailingSpaces(t)]
  }

  /**
   * The trimmed text is the infix `s[a..b]` left after dropping all leading and all
   * trailing whitespace, so it neither starts nor ends with whitespace.
   */
  lemma TrimSpec(s: string) returns (a: nat, b: nat)
    ensures a <= b <= |s| && Trim(s) == s[a..b]
    ensures AllSpace(s[..a]) && AllSpace(s[b..])
    ensures a < b ==> !IsSpace(s[a]) && !IsSpace(s[b - 1])
  {
    a := LeadingSpaces(s);
    var t := s[a..];
    var n := TrailingSpaces(t);
    b := a + |t| - n;
    TrimParts(s, t, a, n, b);
  }

  /** What the trailing scan of the suffix `t == s[a..]` says, restated on `s` itself. */
  lemma TrimParts(s: string, t: string, a: nat, n: nat, b: nat)
    requires a <= |s| && t == s[a..] && n <= |t| && b == a + |t| - n
    requires AllSpace(t[|t| - n..])
    requires n < |t| ==> !IsSpace(t[|t| - n - 1])
    ensures t[..|t| - n] == s[a..b]
    ensures AllSpace(s[b..])
    ensures a < b ==> !IsSpace(s[b - 1])
  {
    PrefixOfSuffix(s, a, |t| - n);
    SuffixOfSuffix(s, a, |t| - n);
    if a < b {
      assert t[|t| - n - 1] == s[b - 1];
    }
  }

  lemma PrefixOfSuffix(s: string, a: nat, m: nat)
    requires a + m <= |s|
    ensures s[a..][..m] == s[a..a + m]
  {
  }

  lemma SuffixOfSuffix(s: string, a: nat, m: nat)
    requires a + m <= |s|
    ensures s[a..][m..] == s[a + m..]
  {
  }

  /** The trimmed text neither starts nor ends with whitespace. */
  lemma TrimEnds(s: string)
    ensures |Trim(s)| == 0 || (!IsSpace(Trim(s)[0]) && !IsSpace(Trim(s)[|Trim(s)| - 1]))
  {
    var a, b := TrimSpec(s);
  }

  /** Trimming is idempotent: a trimmed string is its own trim. */
  lemma TrimIdempotent(s: string)
    ensures Trim(Trim(s)) == Trim(s)
  {
    TrimEnds(s);
    TrimOfTrimmed(Trim(s));
  }

  /** A string that neither starts nor ends with whitespace is its own trim. */
  lemma TrimOfTrimmed(r: string)
    requires |r| == 0 || (!IsSpace(r[0]) && !IsSpace(r[|r| - 1]))
    ensures Trim(r) == r
  {
    assert LeadingSpaces(r) == 0;
    assert r[0..] == r;
    assert TrailingSpaces(r) == 0;
  }

  // ---------------------------------------------------------------- string patterns

  /** `pat` occurs in `s` starting at index `i`. */
  predicate OccursAt(s: string, pat: string, i: nat) {
    i + |pat| <= |s| && s[i..i + |pat|] == pat
  }

  /** `s.indexOf(pat, from)`, with `None` for JavaScript's `-1`. */
  function IndexOfFrom(s: string, pat: string, from: nat): (r: Option<nat>)
    requires from <= |s|
    ensures r.Some? ==> from <= r.value && OccursAt(s, pat, r.value)
    ensures r.Some? ==> forall j :: from <= j < r.value ==> !OccursAt(s, pat, j)
    ensures r.None? ==> forall j :: from <= j <= |s| ==> !OccursAt(s, pat, j)
    decreases |s| - from
  {
    if OccursAt(s, pat, from) then Some(from)
    else if from == |s| then None
    else IndexOfFrom(s, pat, from + 1)
  }

  function IndexOf(s: string, pat: string): Option<nat> {
    IndexOfFrom(s, pat, 0)
  }

  /**
   * `s.replace(pat, "")` with a string pattern: only the leftmost occurrence of
   * `pat` is removed; without an occurrence the string is unchanged.
   */
  function RemoveFirst(s: string, pat: string): (r: string)
    ensures (forall j :: 0 <= j <= |s| ==> !OccursAt(s, pat, j)) ==> r == s
    ensures forall i: nat :: OccursAt(s, pat, i) && (forall j: nat :: j < i ==> !OccursAt(s, pat, j))
                             ==> r == s[..i] + s[i + |pat|..]
  {
    match IndexOf(s, pat)
    case None => s
    case Some(i) =>
      assert forall k: nat :: OccursAt(s, pat, k) && (forall j: nat :: j < k ==> !OccursAt(s, pat, j)) ==> k == i;
      s[..i] + s[i + |pat|..]
  }

  // ---------------------------------------------------------------- word runs

  /** End of the maximal run of `\w` characters starting at `j` (greedy `\w*`). */
  function WordEnd(s: string, j: nat): (k: nat)
    requires j <= |s|
    ensures j <= k <= |s|
    ensures forall m :: j <= m < k ==> IsWordChar(s[m])
    ensures k == |s| || !IsWordChar(s[k])
    decreases |s| - j
  {
    if j == |s| || !IsWordChar(s[j]) then j else WordEnd(s, j + 1)
  }

  /** The regular expression `<sigil>\w+` matches `s` at index `i`. */
  predicate RunAt(s: string, sigil: char, i: nat) {
    i + 1 < |s| && s[i] == sigil && IsWordChar(s[i + 1])
  }

  /** No match of `<sigil>\w+` anywhere in `s`. */
  predicate NoRun(s: string, sigil: char) {
    forall i :: 0 <= i < |s| ==> !RunAt(s, sigil, i)
  }

  /** The output of a scan from `i` is empty or starts with a non-word character. */
  predicate StartsNonWord(o: string) {
    |o| == 0 || !IsWordChar(o[0])
  }

  /** Cutting a string never creates a match. */
  lemma NoRunInfix(s: string, sigil: char, a: nat, b: nat)
    requires a <= b <= |s| && NoRun(s, sigil)
    ensures NoRun(s[a..b], sigil)
  {
    var t := s[a..b];
    forall k | 0 <= k < |t|
      ensures !RunAt(t, sigil, k)
    {
      assert RunAt(t, sigil, k) ==> RunAt(s, sigil, a + k);
    }
  }

  /** Trimming never creates a match either. */
  lemma NoRunTrim(s: string, sigil: char)
    requires NoRun(s, sigil)
    ensures NoRun(Trim(s), sigil)
  {
    var a, b := TrimSpec(s);
    NoRunInfix(s, sigil, a, b);
  }

  /**
   * The global replacement `s.replace(/<sigil>\w+/g, "")`, scanning from index `i`:
   * every match is removed whole (the `\w+` is greedy), every other character kept.
   */
  function RemoveRunsFrom(s: string, sigil: char, i: nat): string
    requires i <= |s|
    decreases |s| - i
  {
    if i == |s| then []
    else if RunAt(s, sigil, i) then RemoveRunsFrom(s, sigil, WordEnd(s, i + 1))
    else [s[i]] + RemoveRunsFrom(s, sigil, i + 1)
  }

  function RemoveRuns(s: string, sigil: char): string {
    RemoveRunsFrom(s, sigil, 0)
  }

  lemma {:induction false} RemoveRunsStartsNonWord(s: string, sigil: char, i: nat)
    requires i <= |s| && !IsWordChar(sigil)
    requires i == |s| || !IsWordChar(s[i])
    ensures StartsNonWord(RemoveRunsFrom(s, sigil, i))
    decreases |s| - i
  {
    if i < |s| && RunAt(s, sigil, i) {
      RemoveRunsStartsNonWord(s, sigil, WordEnd(s, i + 1));
    }
  }

  /** A sigil not followed by a word character is followed by output that cannot extend it. */
  lemma AfterLoneSigil(s: string, sigil: char, i: nat)
    requires i < |s| && !IsWordChar(sigil) && s[i] == sigil && !RunAt(s, sigil, i)
    ensures StartsNonWord(RemoveRunsFrom(s, sigil, i + 1))
  {
    RemoveRunsStartsNonWord(s, sigil, i + 1);
  }

  lemma {:induction false} RemoveRunsFromLeavesNoRun(s: string, sigil: char, i: nat)
    requires i <= |s| && !IsWordChar(sigil)
    ensures NoRun(RemoveRunsFrom(s, sigil, i), sigil)
    decreases |s| - i
  {
    if i == |s| {
    } else if RunAt(s, sigil, i) {
      RemoveRunsFromLeavesNoRun(s, sigil, WordEnd(s, i + 1));
    } else {
      var rest := RemoveRunsFrom(s, sigil, i + 1);
      RemoveRunsFromLeavesNoRun(s, sigil, i + 1);
      if s[i] == sigil {
        AfterLoneSigil(s, sigil, i);
      }
      var o := [s[i]] + rest;
      forall k | 0 <= k < |o|
        ensures !RunAt(o, sigil, k)
      {
        if k > 0 {
          assert RunAt(o, sigil, k) ==> RunAt(rest, sigil, k - 1);
        }
      }
    }
  }

  /** After a global `<sigil>\w+` replacement no match is left, whatever the input. */
  lemma RemoveRunsLeavesNoRun(s: string, sigil: char)
    requires !IsWordChar(sigil)
    ensures NoRun(RemoveRuns(s, sigil), sigil)
  {
    RemoveRunsFromLeavesNoRun(s, sigil, 0);
  }

  lemma {:induction false} RemoveRunsFromIdentity(s: string, sigil: char, i: nat)
    requires i <= |s| && NoRun(s, sigil)
    ensures RemoveRunsFrom(s, sigil, i) == s[i..]
    decreases |s| - i
  {
    if i < |s| {
      RemoveRunsFromIdentity(s, sigil, i + 1);
    }
  }

  /** A string with no match is left unchanged; with the lemma above, the replacement is idempotent. */
  lemma RemoveRunsIdempotent(s: string, sigil: char)
    requires !IsWordChar(sigil)
    ensures NoRun(s, sigil) ==> RemoveRuns(s, sigil) == s
    ensures RemoveRuns(RemoveRuns(s, sigil), sigil) == RemoveRuns(s, sigil)
  {
    if NoRun(s, sigil) {
      RemoveRunsFromIdentity(s, sigil, 0);
    }
    RemoveRunsLeavesNoRun(s, sigil);
    RemoveRunsFromIdentity(RemoveRuns(s, sigil), sigil, 0);
  }

  // ---------------------------------------------------------------- what a replacement keeps

  /** The characters of `s` from index `i` on whose index is not in `dropped`, in order. */
  function KeepOutside(s: string, dropped: set<nat>, i: nat): string
    requires i <= |s|
    decreases |s| - i
  {
    if i == |s| then []
    else if i in dropped then KeepOutside(s, dropped, i + 1)
    else [s[i]] + KeepOutside(s, dropped, i + 1)
  }

  /** Skipping a stretch of dropped indices changes nothing. */
  lemma {:induction false} SkipDropped(s: string, dropped: set<nat>, i: nat, e: nat)
    requires i <= e <= |s| && forall k :: i <= k < e ==> k in dropped
    ensures KeepOutside(s, dropped, i) == KeepOutside(s, dropped, e)
    decreases e - i
  {
    if i < e {
      SkipDropped(s, dropped, i + 1, e);
    }
  }

  /** Index `k` lies inside some match of `<sigil>\w+`, wherever that match starts. */
  predicate InRun(s: string, sigil: char, k: nat) {
    exists j :: 0 <= j <= k && RunAt(s, sigil, j) && k < WordEnd(s, j + 1)
  }

  /** The indices of `s` covered by matches of `<sigil>\w+`. */
  function RunSpans(s: string, sigil: char): set<nat> {
    set k: nat | k < |s| && InRun(s, sigil, k)
  }

  /** Every match that starts before `i` has ended by `i`: a scan can stand at `i`. */
  predicate RunsEndBy(s: string, sigil: char, i: nat) {
    forall j :: 0 <= j < i && RunAt(s, sigil, j) ==> WordEnd(s, j + 1) <= i
  }

  /** A match covers every index up to the end of its word. */
  lemma RunCovers(s: string, sigil: char, i: nat)
    requires RunAt(s, sigil, i)
    ensures forall k :: i <= k < WordEnd(s, i + 1) ==> k in RunSpans(s, sigil)
  {
    forall k | i <= k < WordEnd(s, i + 1)
      ensures k in RunSpans(s, sigil)
    {
      assert InRun(s, sigil, k);
    }
  }

  /** After a match the scan stands where no match reaches past it: no match starts inside a word. */
  lemma RunsEndAfterRun(s: string, sigil: char, i: nat)
    requires !IsWordChar(sigil) && RunAt(s, sigil, i) && RunsEndBy(s, sigil, i)
    ensures RunsEndBy(s, sigil, WordEnd(s, i + 1))
  {
    var e := WordEnd(s, i + 1);
    forall j | 0 <= j < e && RunAt(s, sigil, j)
      ensures WordEnd(s, j + 1) <= e
    {
      if i < j {
        assert false;
      }
    }
  }

  lemma {:induction false} RemoveRunsFromKeepsRest(s: string, sigil: char, i: nat)
    requires i <= |s| && !IsWordChar(sigil) && RunsEndBy(s, sigil, i)
    ensures RemoveRunsFrom(s, sigil, i) == KeepOutside(s, RunSpans(s, sigil), i)
    decreases |s| - i
  {
    if i == |s| {
    } else if RunAt(s, sigil, i) {
      var e := WordEnd(s, i + 1);
      RunCovers(s, sigil, i);
      SkipDropped(s, RunSpans(s, sigil), i, e);
      RunsEndAfterRun(s, sigil, i);
      RemoveRunsFromKeepsRest(s, sigil, e);
    } else {
      assert !InRun(s, sigil, i);
      RemoveRunsFromKeepsRest(s, sigil, i + 1);
    }
  }

  /**
   * The global replacement keeps exactly the characters no match covers, in order:
   * the reference `KeepOutside` over `RunSpans` does not scan, it only asks of each
   * index whether some match covers it.
   */
  lemma RemoveRunsKeepsRest(s: string, sigil: char)
    requires !IsWordChar(sigil)
    ensures RemoveRuns(s, sigil) == KeepOutside(s, RunSpans(s, sigil), 0)
  {
    RemoveRunsFromKeepsRest(s, sigil, 0);
  }

  /** Index of the first match of `<sigil>\w+` at or after index `i`. */
  function FirstRunIndexFrom(s: string, sigil: char, i: nat): (r: Option<nat>)
    requires i <= |s|
    ensures r.None? ==> forall j :: i <= j < |s| ==> !RunAt(s, sigil, j)
    ensures r.Some? ==> i <= r.value < |s| && RunAt(s, sigil, r.value)
    ensures r.Some? ==> forall k :: i <= k < r.value ==> !RunAt(s, sigil, k)
    decreases |s| - i
  {
    if i == |s| then None
    else if RunAt(s, sigil, i) then Some(i)
    else FirstRunIndexFrom(s, sigil, i + 1)
  }

  /**
   * The first match of `<sigil>\w+` in `s` as matched text, sigil included:
   * `s.match(/<sigil>\w+/g)[0]`, or `None` when the match list is empty.
   */
  function FirstRun(s: string, sigil: char): (r: Option<string>)
    ensures r.None? <==> NoRun(s, sigil)
    ensures r.Some? ==> |r.value| >= 2 && r.value[0] == sigil
    ensures r.Some? ==> forall k :: 1 <= k < |r.value| ==> IsWordChar(r.value[k])
    ensures r.Some? ==> exists j :: && 0 <= j < |s| && RunAt(s, sigil, j)
                                    && (forall k :: 0 <= k < j ==> !RunAt(s, sigil, k))
                                    && r.value == s[j..WordEnd(s, j + 1)]
  {
    match FirstRunIndexFrom(s, sigil, 0)
    case None => None
    case Some(j) => Some(s[j..WordEnd(s, j + 1)])
  }

  // ---------------------------------------------------------------- priority tokens

  /** The six names of the `TaskPriority` enumeration. */
  const PriorityNames: seq<string> := ["P1", "P2", "P3", "UI", "UX", "BUG"]

  /**
   * The group `(P[1-3]|UI|UX|BUG)` tried at index `i`, alternatives in order.
   * At most one alternative can match at a given index.
   */
  function TokenAt(s: string, i: nat): (r: Option<string>)
    ensures r.Some? ==> r.value in PriorityNames && OccursAt(s, r.value, i)
    ensures r.None? ==> forall p :: p in PriorityNames ==> !OccursAt(s, p, i)
  {
    if OccursAt(s, "P1", i) then Some("P1")
    else if OccursAt(s, "P2", i) then Some("P2")
    else if OccursAt(s, "P3", i) then Some("P3")
    else if OccursAt(s, "UI", i) then Some("UI")
    else if OccursAt(s, "UX", i) then Some("UX")
    else if OccursAt(s, "BUG", i) then Some("BUG")
    else None
  }

  /** `\b` at index `j`: exactly one of `s[j-1]` and `s[j]` is a word character. */
  predicate BoundaryAt(s: string, j: nat)
    requires j <= |s|
  {
    (j > 0 && IsWordChar(s[j - 1])) != (j < |s| && IsWordChar(s[j]))
  }

  /** `\b(P[1-3]|UI|UX|BUG)\b` matches `s` at index `i`. */
  predicate PriorityAt(s: string, i: nat) {
    i <= |s| && BoundaryAt(s, i) && TokenAt(s, i).Some?
    && BoundaryAt(s, i + |TokenAt(s, i).value|)
  }

  /** Index of the leftmost match of `\b(P[1-3]|UI|UX|BUG)\b` at or after index `i`. */
  function FirstPriorityIndexFrom(s: string, i: nat): (r: Option<nat>)
    requires i <= |s|
    ensures r.None? ==> forall j :: i <= j <= |s| ==> !PriorityAt(s, j)
    ensures r.Some? ==> i <= r.value <= |s| && PriorityAt(s, r.value)
    ensures r.Some? ==> forall k :: i <= k < r.value ==> !PriorityAt(s, k)
    decreases |s| - i
  {
    if PriorityAt(s, i) then Some(i)
    else if i == |s| then None
    else FirstPriorityIndexFrom(s, i + 1)
  }

  /** The whole match of `s.match(/\b(P[1-3]|UI|UX|BUG)\b/)`, or `None` for `null`. */
  function FirstPriority(s: string): (r: Option<string>)
    ensures r.Some? ==> r.value in PriorityNames
    ensures r.None? <==> forall j :: 0 <= j <= |s| ==> !PriorityAt(s, j)
    ensures r.Some? ==> exists j :: && 0 <= j <= |s| && PriorityAt(s, j)
                                    && (forall k :: 0 <= k < j ==> !PriorityAt(s, k))
                                    && r == TokenAt(s, j)
  {
    match FirstPriorityIndexFrom(s, 0)
    case None => None
    case Some(j) => TokenAt(s, j)
  }

  /**
   * `s.replace(/#\w+|\b(P[1-3]|UI|UX|BUG)\b/g, "")` scanning from index `i`:
   * at each index the tag alternative is tried first, then the priority token.
   */
  function RemoveTagsAndPrioritiesFrom(s: string, i: nat): string
    requires i <= |s|
    decreases |s| - i
  {
    if i == |s| then []
    else if RunAt(s, '#', i) then RemoveTagsAndPrioritiesFrom(s, WordEnd(s, i + 1))
    else if PriorityAt(s, i) then RemoveTagsAndPrioritiesFrom(s, i + |TokenAt(s, i).value|)
    else [s[i]] + RemoveTagsAndPrioritiesFrom(s, i + 1)
  }

  function RemoveTagsAndPriorities(s: string): string {
    RemoveTagsAndPrioritiesFrom(s, 0)
  }

  lemma {:induction false} CleanStartsNonWord(s: string, i: nat)
    requires i <= |s|
    requires i == |s| || !IsWordChar(s[i])
    ensures StartsNonWord(RemoveTagsAndPrioritiesFrom(s, i))
    decreases |s| - i
  {
    if i < |s| && RunAt(s, '#', i) {
      CleanStartsNonWord(s, WordEnd(s, i + 1));
    } else if i < |s| {
      TokenStartsWithWordChar(s, i);
    }
  }

  /** Every priority name starts with a letter, so no token starts at a non-word character. */
  lemma TokenStartsWithWordChar(s: string, i: nat)
    requires i < |s| && !IsWordChar(s[i])
    ensures TokenAt(s, i).None?
  {
  }

  lemma {:induction false} CleanFromLeavesNoTag(s: string, i: nat)
    requires i <= |s|
    ensures NoRun(RemoveTagsAndPrioritiesFrom(s, i), '#')
    decreases |s| - i
  {
    if i < |s| {
      var e := CleanResume(s, i);
      CleanFromLeavesNoTag(s, e);
      NoTagStep(s, i, e);
    }
  }

  /** One step of `CleanFromLeavesNoTag`: from the resume index back to `i`. */
  lemma NoTagStep(s: string, i: nat, e: nat)
    requires i < |s| && e == CleanResume(s, i)
    requires NoRun(RemoveTagsAndPrioritiesFrom(s, e), '#')
    ensures NoRun(RemoveTagsAndPrioritiesFrom(s, i), '#')
  {
    if RunAt(s, '#', i) || PriorityAt(s, i) {
      assert RemoveTagsAndPrioritiesFrom(s, i) == RemoveTagsAndPrioritiesFrom(s, e);
    } else {
      var rest := RemoveTagsAndPrioritiesFrom(s, i + 1);
      if s[i] == '#' {
        CleanStartsNonWord(s, i + 1);
      }
      var o := [s[i]] + rest;
      assert RemoveTagsAndPrioritiesFrom(s, i) == o;
      forall k | 0 <= k < |o|
        ensures !RunAt(o, '#', k)
      {
        if k > 0 {
          assert RunAt(o, '#', k) ==> RunAt(rest, '#', k - 1);
        }
      }
    }
  }

  /** The task cleaner leaves no `#\w+` tag behind, for any input. */
  lemma CleanLeavesNoTag(s: string)
    ensures NoRun(RemoveTagsAndPriorities(s), '#')
  {
    CleanFromLeavesNoTag(s, 0);
  }

  // ---------------------------------------------------------------- no token survives the cleaner

  /** A priority name is made of word characters only. */
  lemma NameIsWord(p: string)
    requires p in PriorityNames
    ensures |p| >= 2 && forall k :: 0 <= k < |p| ==> IsWordChar(p[k])
  {
  }

  lemma SameOccurrence(t: string, a: nat, s: string, b: nat, w: nat, p: string)
    requires a + w <= |t| && b + w <= |s| && t[a..a + w] == s[b..b + w]
    requires a + w == |t| || !IsWordChar(t[a + w])
    requires b + w == |s| || !IsWordChar(s[b + w])
    requires p in PriorityNames
    ensures OccursAt(t, p, a) == OccursAt(s, p, b)
  {
    NameIsWord(p);
    if |p| <= w {
      PrefixOfInfix(t, a, w, |p|);
      PrefixOfInfix(s, b, w, |p|);
    } else {
      NotOccursPastRun(t, a, w, p);
      NotOccursPastRun(s, b, w, p);
    }
  }

  lemma PrefixOfInfix(s: string, a: nat, w: nat, m: nat)
    requires m <= w && a + w <= |s|
    ensures s[a..a + w][..m] == s[a..a + m]
  {
  }

  /** A word longer than the run of text before a non-word character does not occur there. */
  lemma NotOccursPastRun(t: string, a: nat, w: nat, p: string)
    requires a + w <= |t| && (a + w == |t| || !IsWordChar(t[a + w]))
    requires w < |p| && forall k :: 0 <= k < |p| ==> IsWordChar(p[k])
    ensures !OccursAt(t, p, a)
  {
    if a + |p| <= |t| {
      assert t[a..a + |p|][w] == t[a + w];
    }
  }

  /**
   * The token found at an index depends only on the word characters there: two
   * places holding the same text up to a non-word character (or the end) find the
   * same token.
   */
  lemma TokenSameRun(t: string, a: nat, s: string, b: nat, w: nat)
    requires a + w <= |t| && b + w <= |s| && t[a..a + w] == s[b..b + w]
    requires a + w == |t| || !IsWordChar(t[a + w])
    requires b + w == |s| || !IsWordChar(s[b + w])
    ensures TokenAt(t, a) == TokenAt(s, b)
  {
    SameOccurrence(t, a, s, b, w, "P1");
    SameOccurrence(t, a, s, b, w, "P2");
    SameOccurrence(t, a, s, b, w, "P3");
    SameOccurrence(t, a, s, b, w, "UI");
    SameOccurrence(t, a, s, b, w, "UX");
    SameOccurrence(t, a, s, b, w, "BUG");
  }

  /** A token after the first character of `[c] + r` is a token of `r`, and one right after `c` needs `c` to be a non-word character. */
  lemma PriorityShift(c: char, r: string, j: nat)
    requires 1 <= j && PriorityAt([c] + r, j)
    ensures PriorityAt(r, j - 1) && (j == 1 ==> !IsWordChar(c))
  {
    var t := [c] + r;
    TokenShift(c, r, j);
    var p := TokenAt(t, j).value;
    var e := PriorityEnd(t, j);
    NameIsWord(p);
    BoundaryShift(c, r, e);
    if j == 1 {
      assert r[0] == r[0..|p|][0] == p[0];
    } else {
      BoundaryShift(c, r, j);
    }
  }

  /** Past the first character, `[c] + r` finds the tokens `r` finds, one place later. */
  lemma TokenShift(c: char, r: string, j: nat)
    requires 1 <= j <= |r| + 1
    ensures TokenAt([c] + r, j) == TokenAt(r, j - 1)
  {
    var t := [c] + r;
    var w := |r| - (j - 1);
    assert t[j..j + w] == r[j - 1..j - 1 + w] by {
      ConsSuffix(c, r, j);
    }
    TokenSameRun(t, j, r, j - 1, w);
  }

  lemma ConsSuffix(c: char, r: string, j: nat)
    requires 1 <= j <= |r| + 1
    ensures ([c] + r)[j..] == r[j - 1..]
  {
  }

  /** Past the first two characters, `[c] + r` has the word boundaries of `r`, one place later. */
  lemma BoundaryShift(c: char, r: string, k: nat)
    requires 2 <= k <= |r| + 1
    ensures BoundaryAt([c] + r, k) == BoundaryAt(r, k - 1)
  {
    var t := [c] + r;
    assert t[k - 1] == r[k - 2];
    assert k < |t| ==> t[k] == r[k - 1];
  }

  /**
   * From inside a word the cleaner copies the rest of the word unchanged: neither
   * alternative can match between two word characters.
   */
  lemma {:induction false} WordRunKept(s: string, k: nat)
    requires 0 < k <= |s| && IsWordChar(s[k - 1])
    ensures RemoveTagsAndPrioritiesFrom(s, k) == s[k..WordEnd(s, k)] + RemoveTagsAndPrioritiesFrom(s, WordEnd(s, k))
    decreases |s| - k
  {
    if k < |s| && IsWordChar(s[k]) {
      var e := WordEnd(s, k);
      var rest := RemoveTagsAndPrioritiesFrom(s, e);
      InnerWordCharKept(s, k);
      WordRunKept(s, k + 1);
      ConsSlice(s, k, e);
      ConsAppend(s[k], s[k + 1..e], rest, RemoveTagsAndPrioritiesFrom(s, k + 1));
    } else {
      assert WordEnd(s, k) == k;
      assert s[k..k] == [];
    }
  }

  /** A word character right after another is copied: no match starts inside a word. */
  lemma InnerWordCharKept(s: string, k: nat)
    requires 0 < k < |s| && IsWordChar(s[k - 1]) && IsWordChar(s[k])
    ensures WordEnd(s, k) == WordEnd(s, k + 1)
    ensures RemoveTagsAndPrioritiesFrom(s, k) == [s[k]] + RemoveTagsAndPrioritiesFrom(s, k + 1)
  {
    assert !RunAt(s, '#', k);
    assert !BoundaryAt(s, k);
  }

  lemma ConsAppend(c: char, u: string, v: string, y: string)
    requires y == u + v
    ensures [c] + y == ([c] + u) + v
  {
  }

  lemma ConsSlice(s: string, k: nat, e: nat)
    requires k < e <= |s|
    ensures [s[k]] + s[k + 1..e] == s[k..e]
  {
  }

  predicate AllWord(u: string) {
    forall k :: 0 <= k < |u| ==> IsWordChar(u[k])
  }

  /** No standalone priority token starts anywhere after the first character. */
  predicate NoTokenAfterStart(o: string) {
    forall j :: 1 <= j <= |o| ==> !PriorityAt(o, j)
  }

  /**
   * A scan from `i` leaves no standalone priority token, except possibly at its very
   * start when the character before `i` is a word character (the start of the
   * output is then not a boundary in the whole output).
   */
  lemma {:induction false} CleanFromNoToken(s: string, i: nat)
    requires i <= |s|
    ensures NoTokenAfterStart(RemoveTagsAndPrioritiesFrom(s, i))
    ensures PriorityAt(RemoveTagsAndPrioritiesFrom(s, i), 0) ==> 0 < i && IsWordChar(s[i - 1])
    decreases |s| - i
  {
    if i == |s| {
      assert RemoveTagsAndPrioritiesFrom(s, i) == [];
    } else {
      var e := CleanResume(s, i);
      CleanFromNoToken(s, e);
      NoTokenStep(s, i, e);
    }
  }

  /** Where the scan of `RemoveTagsAndPrioritiesFrom` resumes after index `i`. */
  function CleanResume(s: string, i: nat): (e: nat)
    requires i < |s|
    ensures i < e <= |s|
  {
    if RunAt(s, '#', i) then WordEnd(s, i + 1)
    else if PriorityAt(s, i) then PriorityEnd(s, i)
    else i + 1
  }

  /** One step of `CleanFromNoToken`: from the facts at the resume index to the facts at `i`. */
  lemma NoTokenStep(s: string, i: nat, e: nat)
    requires i < |s| && e == CleanResume(s, i)
    requires NoTokenAfterStart(RemoveTagsAndPrioritiesFrom(s, e))
    requires PriorityAt(RemoveTagsAndPrioritiesFrom(s, e), 0) ==> 0 < e && IsWordChar(s[e - 1])
    ensures NoTokenAfterStart(RemoveTagsAndPrioritiesFrom(s, i))
    ensures PriorityAt(RemoveTagsAndPrioritiesFrom(s, i), 0) ==> 0 < i && IsWordChar(s[i - 1])
  {
    if RunAt(s, '#', i) || PriorityAt(s, i) {
      NoTokenRemoved(s, i, e);
    } else {
      NoTokenKept(s, i);
    }
  }

  /** The removal steps of `CleanFromNoToken`: a tag or a token is dropped and the scan resumes at `e`. */
  lemma NoTokenRemoved(s: string, i: nat, e: nat)
    requires i < |s| && e <= |s|
    requires || (RunAt(s, '#', i) && e == WordEnd(s, i + 1))
             || (!RunAt(s, '#', i) && PriorityAt(s, i) && e == PriorityEnd(s, i))
    requires NoTokenAfterStart(RemoveTagsAndPrioritiesFrom(s, e))
    ensures NoTokenAfterStart(RemoveTagsAndPrioritiesFrom(s, i))
    ensures !PriorityAt(RemoveTagsAndPrioritiesFrom(s, i), 0)
  {
    assert RemoveTagsAndPrioritiesFrom(s, i) == RemoveTagsAndPrioritiesFrom(s, e);
    NoTokenAfterRemoval(s, e);
  }

  /** Where a removal stops, the input holds a non-word character or nothing, so no token starts the output there. */
  lemma NoTokenAfterRemoval(s: string, e: nat)
    requires e <= |s| && (e == |s| || !IsWordChar(s[e]))
    requires NoTokenAfterStart(RemoveTagsAndPrioritiesFrom(s, e))
    ensures !PriorityAt(RemoveTagsAndPrioritiesFrom(s, e), 0)
  {
    var o := RemoveTagsAndPrioritiesFrom(s, e);
    CleanStartsNonWord(s, e);
    if |o| > 0 {
      TokenStartsWithWordChar(o, 0);
    }
  }

  /** The end of a standalone token: inside the input, and followed by a non-word character or nothing. */
  function PriorityEnd(s: string, i: nat): (e: nat)
    requires PriorityAt(s, i)
    ensures i < e <= |s| && (e == |s| || !IsWordChar(s[e]))
    ensures e == i + |TokenAt(s, i).value|
  {
    var p := TokenAt(s, i).value;
    NameIsWord(p);
    assert s[i + |p| - 1] == s[i..i + |p|][|p| - 1];
    i + |p|
  }

  /** The kept-character step of `CleanFromNoToken`. */
  lemma NoTokenKept(s: string, i: nat)
    requires i < |s| && !RunAt(s, '#', i) && !PriorityAt(s, i)
    requires NoTokenAfterStart(RemoveTagsAndPrioritiesFrom(s, i + 1))
    requires PriorityAt(RemoveTagsAndPrioritiesFrom(s, i + 1), 0) ==> IsWordChar(s[i])
    ensures NoTokenAfterStart(RemoveTagsAndPrioritiesFrom(s, i))
    ensures PriorityAt(RemoveTagsAndPrioritiesFrom(s, i), 0) ==> 0 < i && IsWordChar(s[i - 1])
  {
    var o := RemoveTagsAndPrioritiesFrom(s, i);
    var rest := RemoveTagsAndPrioritiesFrom(s, i + 1);
    assert o == [s[i]] + rest;
    forall j | 1 <= j <= |o| && PriorityAt(o, j)
      ensures false
    {
      PriorityShift(s[i], rest, j);
    }
    if PriorityAt(o, 0) && !(0 < i && IsWordChar(s[i - 1])) {
      TokenAfterBoundaryRemoved(s, i);
    }
  }

  /**
   * A token at the start of a word followed by a non-word character (or nothing)
   * is the whole word.
   */
  lemma TokenIsWholeWord(u: string, rest: string)
    requires |u| > 0 && AllWord(u) && StartsNonWord(rest)
    requires PriorityAt(u + rest, 0)
    ensures TokenAt(u + rest, 0) == Some(u)
  {
    var o := u + rest;
    var p := TokenAt(o, 0).value;
    NameIsWord(p);
    assert o[..|p|] == p;
    if |p| > |u| {
      assert false;
    } else if |p| < |u| {
      assert false;
    } else {
      assert p == o[..|u|] == u;
    }
  }

  /**
   * A word the scanner reaches at a boundary and keeps cannot start a token in the
   * output: the output there is the whole word, so the token would have matched
   * the input.
   */
  lemma TokenAfterBoundaryRemoved(s: string, i: nat)
    requires i < |s| && !RunAt(s, '#', i) && !PriorityAt(s, i)
    requires i == 0 || !IsWordChar(s[i - 1])
    ensures !PriorityAt(RemoveTagsAndPrioritiesFrom(s, i), 0)
  {
    var o := RemoveTagsAndPrioritiesFrom(s, i);
    assert o == [s[i]] + RemoveTagsAndPrioritiesFrom(s, i + 1);
    if !IsWordChar(s[i]) {
      TokenStartsWithWordChar(o, 0);
    } else if PriorityAt(o, 0) {
      var e := WordEnd(s, i + 1);
      KeptWordOutput(s, i);
      WordSlice(s, i);
      TokenIsWholeWord(s[i..e], RemoveTagsAndPrioritiesFrom(s, e));
      WholeWordTokenInInput(s, i, e, RemoveTagsAndPrioritiesFrom(s, e));
    }
  }

  /** A kept word character starts a copy of its whole word, followed by output that starts with a non-word character. */
  lemma KeptWordOutput(s: string, i: nat)
    requires i < |s| && IsWordChar(s[i]) && !RunAt(s, '#', i) && !PriorityAt(s, i)
    ensures var e := WordEnd(s, i + 1);
            && RemoveTagsAndPrioritiesFrom(s, i) == s[i..e] + RemoveTagsAndPrioritiesFrom(s, e)
            && StartsNonWord(RemoveTagsAndPrioritiesFrom(s, e))
  {
    var e := WordEnd(s, i + 1);
    var rest := RemoveTagsAndPrioritiesFrom(s, e);
    assert RemoveTagsAndPrioritiesFrom(s, i) == [s[i]] + RemoveTagsAndPrioritiesFrom(s, i + 1);
    WordRunKept(s, i + 1);
    CleanStartsNonWord(s, e);
    ConsSlice(s, i, e);
    ConsAppend(s[i], s[i + 1..e], rest, RemoveTagsAndPrioritiesFrom(s, i + 1));
  }

  /** The word starting at a word character, up to `WordEnd`, is all word characters. */
  lemma WordSlice(s: string, i: nat)
    requires i < |s| && IsWordChar(s[i])
    ensures AllWord(s[i..WordEnd(s, i + 1)])
  {
    var e := WordEnd(s, i + 1);
    forall k | 0 <= k < e - i
      ensures IsWordChar(s[i..e][k])
    {
      assert s[i..e][k] == s[i + k];
    }
  }

  /** A token that is the whole word `s[i..e]`, standing at a boundary of `s`, is a standalone token of `s`. */
  lemma WholeWordTokenInInput(s: string, i: nat, e: nat, rest: string)
    requires i < e <= |s| && (e == |s| || !IsWordChar(s[e])) && (i == 0 || !IsWordChar(s[i - 1]))
    requires AllWord(s[i..e])
    requires StartsNonWord(rest) && TokenAt(s[i..e] + rest, 0) == Some(s[i..e])
    ensures PriorityAt(s, i)
  {
    var u := s[i..e];
    var o := u + rest;
    assert o[0..|u|] == s[i..e];
    assert |u| == |o| || !IsWordChar(o[|u|]);
    TokenSameSpan(o, 0, |u|, s, i, e);
    assert s[i] == u[0] && s[e - 1] == u[|u| - 1];
    PriorityFromParts(s, i, e);
  }

  /** The task cleaner leaves no standalone priority token behind, for any input. */
  lemma CleanLeavesNoToken(s: string)
    ensures forall j :: 0 <= j <= |RemoveTagsAndPriorities(s)| ==> !PriorityAt(RemoveTagsAndPriorities(s), j)
  {
    CleanFromNoToken(s, 0);
  }

  /**
   * Trimming cannot create a token: the cut ends are whitespace, which is not a
   * word character, so each boundary stays a boundary.
   */
  lemma TrimNoToken(x: string)
    requires forall j :: 0 <= j <= |x| ==> !PriorityAt(x, j)
    ensures forall j :: 0 <= j <= |Trim(x)| ==> !PriorityAt(Trim(x), j)
  {
    var a, b := TrimSpec(x);
    TrimEdgesNonWord(x, a, b);
    forall j | 0 <= j <= |Trim(x)| && PriorityAt(Trim(x), j)
      ensures false
    {
      SliceTokenIsToken(x, a, b, j);
    }
  }

  /** The characters just outside a trimmed infix are whitespace, hence not word characters. */
  lemma TrimEdgesNonWord(x: string, a: nat, b: nat)
    requires a <= b <= |x| && AllSpace(x[..a]) && AllSpace(x[b..])
    ensures EdgesNonWord(x, a, b)
  {
    if a > 0 {
      assert x[..a][a - 1] == x[a - 1];
      SpaceNotWord(x[a - 1]);
    }
    if b < |x| {
      assert x[b..][0] == x[b];
      SpaceNotWord(x[b]);
    }
  }

  /** The infix `x[a..b]` has a non-word character (or the end) on each side. */
  predicate EdgesNonWord(x: string, a: nat, b: nat)
    requires a <= b <= |x|
  {
    (a == 0 || !IsWordChar(x[a - 1])) && (b == |x| || !IsWordChar(x[b]))
  }

  /** The part `[j..e]` of the infix `x[a..b]` is the part `[i..f]` of `x`, with `i` and `f` shifted by `a`. */
  lemma SliceOfSlice(x: string, a: nat, b: nat, j: nat, e: nat, i: nat, f: nat)
    requires a <= b <= |x| && j <= e <= b - a && i == a + j && f == a + e
    ensures x[a..b][j..e] == x[i..f]
  {
    var t := x[a..b];
    var l, r := t[j..e], x[i..f];
    forall k | 0 <= k < e - j
      ensures l[k] == r[k]
    {
      assert l[k] == t[j + k];
    }
  }

  /** A standalone token of an infix with non-word edges is a standalone token of the whole text. */
  lemma SliceTokenIsToken(x: string, a: nat, b: nat, j: nat)
    requires a <= b <= |x| && EdgesNonWord(x, a, b)
    requires PriorityAt(x[a..b], j)
    ensures PriorityAt(x, a + j)
  {
    var t := x[a..b];
    var e := PriorityEnd(t, j);
    SpanTokenIsToken(x, a, b, j, e);
  }

  /** `SliceTokenIsToken` from the parts of the token: its two boundaries, the token and its end. */
  lemma SpanTokenIsToken(x: string, a: nat, b: nat, j: nat, e: nat)
    requires a <= b <= |x| && EdgesNonWord(x, a, b) && j <= e <= b - a
    requires BoundaryAt(x[a..b], j) && BoundaryAt(x[a..b], e)
    requires TokenAt(x[a..b], j).Some? && j + |TokenAt(x[a..b], j).value| == e
    requires e == b - a || !IsWordChar(x[a..b][e])
    ensures PriorityAt(x, a + j)
  {
    var t := x[a..b];
    var i, f := a + j, a + e;
    SliceOfSlice(x, a, b, j, e, i, f);
    SliceBoundary(x, a, b, j, i);
    SliceBoundary(x, a, b, e, f);
    SliceEndNonWord(x, a, b, e, f);
    TokenSameSpan(t, j, e, x, i, f);
    PriorityFromParts(x, i, f);
  }

  /** `TokenSameRun` for two spans given by their ends. */
  lemma TokenSameSpan(t: string, a: nat, ta: nat, s: string, b: nat, sb: nat)
    requires a <= ta <= |t| && b <= sb <= |s| && ta - a == sb - b && t[a..ta] == s[b..sb]
    requires ta == |t| || !IsWordChar(t[ta])
    requires sb == |s| || !IsWordChar(s[sb])
    ensures TokenAt(t, a) == TokenAt(s, b)
  {
    TokenSameRun(t, a, s, b, ta - a);
  }

  /** A token standing between two word boundaries is a standalone token. */
  lemma PriorityFromParts(s: string, i: nat, f: nat)
    requires i <= f <= |s| && BoundaryAt(s, i) && BoundaryAt(s, f)
    requires TokenAt(s, i).Some? && i + |TokenAt(s, i).value| == f
    ensures PriorityAt(s, i)
  {
  }

  /** Whitespace is never a word character. */
  lemma SpaceNotWord(c: char)
    requires IsSpace(c)
    ensures !IsWordChar(c)
  {
  }

  /** A non-word character (or the end) inside an infix with non-word edges is one of the whole text. */
  lemma SliceEndNonWord(x: string, a: nat, b: nat, e: nat, f: nat)
    requires a <= b <= |x| && EdgesNonWord(x, a, b) && e <= b - a && f == a + e
    requires e == b - a || !IsWordChar(x[a..b][e])
    ensures f == |x| || !IsWordChar(x[f])
  {
    if e < b - a {
      assert x[a..b][e] == x[f];
    }
  }

  /** An infix with non-word edges has the same word boundaries as the whole text. */
  lemma SliceBoundary(x: string, a: nat, b: nat, k: nat, f: nat)
    requires a <= b <= |x| && EdgesNonWord(x, a, b) && k <= b - a && f == a + k
    ensures BoundaryAt(x[a..b], k) == BoundaryAt(x, f)
  {
    var t := x[a..b];
    if k > 0 {
      assert t[k - 1] == x[f - 1];
    }
    if k < b - a {
      assert t[k] == x[f];
    }
  }


  lemma {:induction false} CleanFromIdentity(s: string, i: nat)
    requires i <= |s| && NoRun(s, '#') && forall j :: 0 <= j <= |s| ==> !PriorityAt(s, j)
    ensures RemoveTagsAndPrioritiesFrom(s, i) == s[i..]
    decreases |s| - i
  {
    if i < |s| {
      CleanFromIdentity(s, i + 1);
    }
  }

  /** Text holding neither a tag nor a standalone priority token passes through the task cleaner unchanged. */
  lemma CleanIdentity(s: string)
    requires NoRun(s, '#') && forall j :: 0 <= j <= |s| ==> !PriorityAt(s, j)
    ensures RemoveTagsAndPriorities(s) == s
  {
    CleanFromIdentity(s, 0);
  }

  /**
   * Index `k` lies inside some match of `#\w+|\b(P[1-3]|UI|UX|BUG)\b`: a tag up to
   * the end of its word, or a standalone priority token.
   */
  predicate InTagOrToken(s: string, k: nat) {
    exists j :: && 0 <= j <= k
                && (|| (RunAt(s, '#', j) && k < WordEnd(s, j + 1))
                    || (PriorityAt(s, j) && k < PriorityEnd(s, j)))
  }

  /** The indices of `s` covered by tags and standalone priority tokens. */
  function TagAndTokenSpans(s: string): set<nat> {
    set k: nat | k < |s| && InTagOrToken(s, k)
  }

  /** Every tag or token that starts before `i` has ended by `i`: the cleaner can stand at `i`. */
  predicate MatchesEndBy(s: string, i: nat) {
    forall j :: 0 <= j < i ==> && (RunAt(s, '#', j) ==> WordEnd(s, j + 1) <= i)
                               && (PriorityAt(s, j) ==> PriorityEnd(s, j) <= i)
  }

  /** A standalone token is made of word characters. */
  lemma TokenChars(s: string, i: nat)
    requires PriorityAt(s, i)
    ensures forall m :: i <= m < PriorityEnd(s, i) ==> IsWordChar(s[m])
  {
    var p := TokenAt(s, i).value;
    NameIsWord(p);
    forall m | i <= m < i + |p|
      ensures IsWordChar(s[m])
    {
      assert s[m] == s[i..i + |p|][m - i];
    }
  }

  /** Inside a word no tag and no standalone token can start. */
  lemma NoMatchInsideWord(s: string, j: nat)
    requires 0 < j < |s| && IsWordChar(s[j - 1]) && IsWordChar(s[j])
    ensures !RunAt(s, '#', j) && !PriorityAt(s, j)
  {
    assert !BoundaryAt(s, j);
  }

  /** A standalone token right after `#` ends with the tag's word. */
  lemma TokenInTagEnds(s: string, i: nat)
    requires RunAt(s, '#', i) && PriorityAt(s, i + 1)
    ensures PriorityEnd(s, i + 1) <= WordEnd(s, i + 1)
  {
    var e, f := WordEnd(s, i + 1), PriorityEnd(s, i + 1);
    TokenChars(s, i + 1);
    if e < f {
      assert false;
    }
  }

  /** The tag step: its indices are covered, and afterwards no match reaches back. */
  lemma CleanTagStep(s: string, i: nat)
    requires RunAt(s, '#', i) && MatchesEndBy(s, i)
    ensures forall k :: i <= k < WordEnd(s, i + 1) ==> k in TagAndTokenSpans(s)
    ensures MatchesEndBy(s, WordEnd(s, i + 1))
  {
    var e := WordEnd(s, i + 1);
    forall k | i <= k < e
      ensures k in TagAndTokenSpans(s)
    {
      assert InTagOrToken(s, k);
    }
    forall j | 0 <= j < e
      ensures && (RunAt(s, '#', j) ==> WordEnd(s, j + 1) <= e)
              && (PriorityAt(s, j) ==> PriorityEnd(s, j) <= e)
    {
      if i <= j {
        TagStepEnds(s, i, j);
      }
    }
  }

  /** A tag or token starting inside a tag ends with the tag's word. */
  lemma TagStepEnds(s: string, i: nat, j: nat)
    requires RunAt(s, '#', i) && i <= j < WordEnd(s, i + 1)
    ensures RunAt(s, '#', j) ==> WordEnd(s, j + 1) <= WordEnd(s, i + 1)
    ensures PriorityAt(s, j) ==> PriorityEnd(s, j) <= WordEnd(s, i + 1)
  {
    if j == i {
      TokenStartsWithWordChar(s, i);
    } else if j == i + 1 {
      if PriorityAt(s, j) {
        TokenInTagEnds(s, i);
      }
    } else {
      NoMatchInsideWord(s, j);
    }
  }

  /** The token step: its indices are covered, and afterwards no match reaches back. */
  lemma CleanTokenStep(s: string, i: nat)
    requires !RunAt(s, '#', i) && PriorityAt(s, i) && MatchesEndBy(s, i)
    ensures forall k :: i <= k < PriorityEnd(s, i) ==> k in TagAndTokenSpans(s)
    ensures MatchesEndBy(s, PriorityEnd(s, i))
  {
    var e := PriorityEnd(s, i);
    forall k | i <= k < e
      ensures k in TagAndTokenSpans(s)
    {
      assert InTagOrToken(s, k);
    }
    TokenChars(s, i);
    forall j | i < j < e
      ensures !RunAt(s, '#', j) && !PriorityAt(s, j)
    {
      NoMatchInsideWord(s, j);
    }
  }

  /** The kept step: no match covers `i`, and the scan moves on by one. */
  lemma CleanKeptStep(s: string, i: nat)
    requires i < |s| && !RunAt(s, '#', i) && !PriorityAt(s, i) && MatchesEndBy(s, i)
    ensures i !in TagAndTokenSpans(s)
    ensures MatchesEndBy(s, i + 1)
  {
    assert !InTagOrToken(s, i);
  }

  lemma {:induction false} CleanFromKeepsRest(s: string, i: nat)
    requires i <= |s| && MatchesEndBy(s, i)
    ensures RemoveTagsAndPrioritiesFrom(s, i) == KeepOutside(s, TagAndTokenSpans(s), i)
    decreases |s| - i
  {
    if i == |s| {
    } else if RunAt(s, '#', i) {
      var e := WordEnd(s, i + 1);
      CleanTagStep(s, i);
      SkipDropped(s, TagAndTokenSpans(s), i, e);
      CleanFromKeepsRest(s, e);
    } else if PriorityAt(s, i) {
      var e := PriorityEnd(s, i);
      CleanTokenStep(s, i);
      SkipDropped(s, TagAndTokenSpans(s), i, e);
      CleanFromKeepsRest(s, e);
    } else {
      CleanKeptStep(s, i);
      CleanFromKeepsRest(s, i + 1);
    }
  }

  /**
   * The task cleaner keeps exactly the characters that no tag and no standalone
   * token covers, in order.
   */
  lemma CleanKeepsRest(s: string)
    ensures RemoveTagsAndPriorities(s) == KeepOutside(s, TagAndTokenSpans(s), 0)
  {
    CleanFromKeepsRest(s, 0);
  }

  // ---------------------------------------------------------------- case and search

  /** `toLowerCase` restricted to ASCII letters. */
  function ToLower(s: string): (r: string)
    ensures |r| == |s|
    ensures forall i :: 0 <= i < |s| ==> r[i] == LowerChar(s[i])
  {
    seq(|s|, i requires 0 <= i < |s| => LowerChar(s[i]))
  }

  /** ASCII lower-casing of one character: `A`-`Z` move to `a`-`z`, everything else stays. */
  function LowerChar(c: char): (d: char)
    ensures 'A' <= c <= 'Z' ==> 'a' <= d <= 'z' && d as int - c as int == 32
    ensures !('A' <= c <= 'Z') ==> d == c
  {
    if 'A' <= c <= 'Z' then (c as int + 32) as char else c
  }

  /** `needle` matches `hay` at index `i` when both are compared character by character ignoring case. */
  predicate MatchesAtIgnoringCase(hay: string, needle: string, i: nat) {
    i + |needle| <= |hay| && forall k :: 0 <= k < |needle| ==> LowerChar(hay[i + k]) == LowerChar(needle[k])
  }

  /** `needle` occurs somewhere in `hay`. */
  predicate Contains(hay: string, needle: string) {
    exists i :: 0 <= i <= |hay| && OccursAt(hay, needle, i)
  }

  /** `hay.includes(needle)`, decided by scanning from index `from`. */
  function IncludesFrom(hay: string, needle: string, from: nat): (b: bool)
    requires from <= |hay|
    ensures b <==> exists i :: from <= i <= |hay| && OccursAt(hay, needle, i)
    decreases |hay| - from
  {
    if OccursAt(hay, needle, from) then true
    else if from == |hay| then false
    else IncludesFrom(hay, needle, from + 1)
  }

  function Includes(hay: string, needle: string): (b: bool)
    ensures b <==> Contains(hay, needle)
  {
    IncludesFrom(hay, needle, 0)
  }

  /** The case-insensitive substring test the list views use: `hay.toLowerCase().includes(needle.toLowerCase())`. */
  function MatchesIgnoringCase(hay: string, needle: string): (b: bool)
    ensures |needle| == 0 ==> b
    ensures b <==> Contains(ToLower(hay), ToLower(needle))
  {
    assert |needle| == 0 ==> OccursAt(ToLower(hay), ToLower(needle), 0);
    Includes(ToLower(hay), ToLower(needle))
  }

  /**
   * The search holds exactly when the needle occurs somewhere in the text, each of
   * its characters equal to the text's character at that position up to case.
   */
  lemma MatchesIgnoringCaseSpec(hay: string, needle: string)
    ensures MatchesIgnoringCase(hay, needle) <==> exists i :: 0 <= i <= |hay| && MatchesAtIgnoringCase(hay, needle, i)
  {
    var h, n := ToLower(hay), ToLower(needle);
    forall i | 0 <= i <= |hay|
      ensures OccursAt(h, n, i) <==> MatchesAtIgnoringCase(hay, needle, i)
    {
      if i + |needle| <= |hay| {
        if OccursAt(h, n, i) {
          forall k | 0 <= k < |needle|
            ensures LowerChar(hay[i + k]) == LowerChar(needle[k])
          {
            assert h[i..i + |n|][k] == n[k];
          }
        }
        if MatchesAtIgnoringCase(hay, needle, i) {
          assert h[i..i + |n|] == n;
        }
      }
    }
  }
}
