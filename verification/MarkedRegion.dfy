/** Embedding generated text between two markers of a file, without touching the rest. */
module MarkedRegion {
  import opened Wrappers

  /** A marker as the generator uses them: not empty, and on one line. */
  predicate IsMarker(m: string) {
    m != "" && '\n' !in m
  }

  predicate OccursAt(text: string, m: string, i: nat) {
    i + |m| <= |text| && forall k :: 0 <= k < |m| ==> m[k] == text[i + k]
  }

  /** str.index: the first occurrence, counted from the front. */
  function Index(text: string, m: string): (r: Option<nat>)
    requires m != ""
    ensures r.Some? ==> OccursAt(text, m, r.value)
  {
    if |text| < |m| then None
    else if OccursAt(text, m, 0) then Some(0)
    else
      var rest := Index(text[1..], m);
      if rest.None? then None else Some(1 + rest.value)
  }

  /** str.count: occurrences that do not overlap, each found after the end of the one before. */
  function Count(text: string, m: string): nat
    requires m != ""
    decreases |text|
  {
    var i := Index(text, m);
    if i.None? then 0 else 1 + Count(text[i.value + |m|..], m)
  }

  ghost predicate Occurs(text: string, m: string) {
    exists i: nat :: OccursAt(text, m, i)
  }

  /** The text between the markers; None is a raised error. */
  function Region(text: string, begin: string, end: string): (r: Option<string>)
    requires begin != "" && end != ""
  {
    if Count(text, begin) != 1 || Count(text, end) != 1 then None else
      var start, finish := Index(text, begin).value + |begin|, Index(text, end).value;
      if finish <= start then None else Some(text[start..finish])
  }

  function StripNewlines(s: string): string {
    if s != "" && s[0] == '\n' then StripNewlines(s[1..])
    else if s != "" && s[|s| - 1] == '\n' then StripNewlines(s[..|s| - 1])
    else s
  }

  /** A line of its own. */
  function Framed(s: string): string {
    ['\n'] + s + ['\n']
  }

  function Replacement(contents: string): string {
    Framed(StripNewlines(contents))
  }

  function Replace(text: string, begin: string, end: string, contents: string): (r: Option<string>)
    requires begin != "" && end != ""
  {
    var current := Region(text, begin, end);
    if current.None? then None else
      var start := Index(text, begin).value + |begin|;
      Some(text[..start] + Replacement(contents) + text[start + |current.value|..])
  }

  // Occurrences.

  lemma {:induction false} IndexIsFirst(text: string, m: string)
    requires m != ""
    ensures Index(text, m).None? <==> !Occurs(text, m)
    ensures Index(text, m).Some? ==> forall j: nat :: j < Index(text, m).value ==> !OccursAt(text, m, j)
  {
    if |text| >= |m| {
      IndexIsFirst(text[1..], m);
      forall j: nat | j > 0 ensures OccursAt(text, m, j) <==> OccursAt(text[1..], m, j - 1) {
        assert text[1..] == text[1..|text|];
        if OccursAt(text, m, j) { OccursWithin(text, m, 1, |text|, j); }
        if OccursAt(text[1..], m, j - 1) { OccursInPart(text, m, 1, |text|, j - 1); }
      }
      if Occurs(text[1..], m) {
        var j: nat :| OccursAt(text[1..], m, j);
        assert OccursAt(text, m, j + 1);
      }
      if Occurs(text, m) && !OccursAt(text, m, 0) {
        var j: nat :| OccursAt(text, m, j);
        assert j > 0 && OccursAt(text[1..], m, j - 1);
      }
    }
  }

  lemma IndexIsBefore(text: string, m: string, i: nat)
    requires m != "" && OccursAt(text, m, i)
    ensures Index(text, m).Some? && Index(text, m).value <= i
  {
    IndexIsFirst(text, m);
  }

  ghost predicate NotBefore(t: string, m: string, p: nat) {
    forall i: nat :: i < p ==> !OccursAt(t, m, i)
  }

  ghost predicate IsIndex(t: string, m: string, i: nat)
    requires m != ""
  {
    Index(t, m) == Some(i)
  }

  ghost predicate CountedOnce(t: string, m: string)
    requires m != ""
  {
    Count(t, m) == 1
  }

  lemma FirstIsIndex(text: string, m: string, i: nat)
    requires m != "" && OccursAt(text, m, i) && NotBefore(text, m, i)
    ensures IsIndex(text, m, i)
  {
    IndexIsFirst(text, m);
  }

  /** One occurrence is counted exactly when one is found and none after its end. */
  lemma CountIsOne(text: string, m: string)
    requires m != ""
    ensures Count(text, m) == 1 <==>
              Index(text, m).Some? && !Occurs(text[Index(text, m).value + |m|..], m)
  {
    if Index(text, m).Some? { IndexIsFirst(text[Index(text, m).value + |m|..], m); }
  }

  lemma CountsOne(t: string, m: string, i: nat)
    requires m != "" && IsIndex(t, m, i) && i + |m| <= |t| && !Occurs(t[i + |m|..], m)
    ensures CountedOnce(t, m)
  {
    CountIsOne(t, m);
  }

  lemma OccursInPart(text: string, m: string, lo: nat, hi: nat, i: nat)
    requires lo <= hi <= |text| && OccursAt(text[lo..hi], m, i)
    ensures OccursAt(text, m, lo + i) && lo + i + |m| <= hi
  {
    forall k | 0 <= k < |m| ensures m[k] == text[lo + i + k] { assert m[k] == text[lo..hi][i + k]; }
  }

  lemma OccursWithin(text: string, m: string, lo: nat, hi: nat, i: nat)
    requires lo <= i && i + |m| <= hi <= |text| && OccursAt(text, m, i)
    ensures OccursAt(text[lo..hi], m, i - lo)
  {
    forall k | 0 <= k < |m| ensures m[k] == text[lo..hi][i - lo + k] { assert m[k] == text[i + k]; }
  }

  lemma CharOfMarker(text: string, m: string, i: nat, d: nat)
    requires OccursAt(text, m, i) && d < |m|
    ensures text[i + d] in m
  {
    assert m[d] == text[i + d];
  }

  /** A marker in a text that has a newline at `k` lies on one side of it. */
  lemma NoStraddling(text: string, m: string, k: nat, i: nat)
    requires IsMarker(m) && k < |text| && text[k] == '\n' && OccursAt(text, m, i)
    ensures i + |m| <= k || k < i
  {
    var d := k - i;
    if 0 <= d < |m| { CharOfMarker(text, m, i, d); }
  }

  /** Three parts, the middle one between newlines. */
  function Join(before: string, contents: string, after: string): string {
    before + Framed(contents) + after
  }

  /** A text with newlines at `a` and `b`. */
  predicate CutAt(t: string, a: nat, b: nat) {
    a < b < |t| && t[a] == '\n' && t[b] == '\n'
  }

  lemma JoinIsCut(before: string, contents: string, after: string)
    ensures var t, a, b := Join(before, contents, after), |before|, |before| + 1 + |contents|;
            CutAt(t, a, b) && t[..a] == before && t[a + 1..b] == contents && t[b + 1..] == after
            && t[a..b + 1] == Framed(contents)
  {
  }

  /** A marker lies between the cuts. */
  lemma OccurrenceIsInOnePart(t: string, a: nat, b: nat, m: string, i: nat)
    requires IsMarker(m) && CutAt(t, a, b) && OccursAt(t, m, i)
    ensures i + |m| <= a || (a < i && i + |m| <= b && OccursAt(t[a + 1..b], m, i - a - 1))
         || (b < i && OccursAt(t[b + 1..], m, i - b - 1))
  {
    NoStraddling(t, m, a, i);
    NoStraddling(t, m, b, i);
    if a < i && i + |m| <= b { OccursWithin(t, m, a + 1, b, i); }
    if b < i {
      OccursWithin(t, m, b + 1, |t|, i);
      assert t[b + 1..] == t[b + 1..|t|];
    }
  }

  /** What occurs behind a place occurs in the text. */
  lemma OccursBehind(t: string, m: string, k: nat, i: nat)
    requires k <= |t|
    ensures OccursAt(t[k..], m, i) <==> OccursAt(t, m, k + i)
  {
    assert t[k..] == t[k..|t|];
    if OccursAt(t[k..], m, i) { OccursInPart(t, m, k, |t|, i); }
    if OccursAt(t, m, k + i) { OccursWithin(t, m, k, |t|, k + i); }
  }

  /** The only occurrence, but for such as overlap it. */
  ghost predicate IsOnceAt(t: string, m: string, i: nat) {
    OccursAt(t, m, i) && NotBefore(t, m, i) && !Occurs(t[i + |m|..], m)
  }

  lemma OnceIsCounted(t: string, m: string, i: nat)
    requires m != "" && IsOnceAt(t, m, i)
    ensures IsIndex(t, m, i) && CountedOnce(t, m)
  {
    FirstIsIndex(t, m, i);
    CountsOne(t, m, i);
  }

  lemma CountedIsOnce(t: string, m: string)
    requires m != "" && CountedOnce(t, m)
    ensures Index(t, m).Some? && IsOnceAt(t, m, Index(t, m).value)
  {
    CountIsOne(t, m);
    IndexIsFirst(t, m);
  }

  /** The text between `start` and `finish` stands between the only markers. */
  ghost predicate IsRegion(t: string, begin: string, end: string, start: nat, finish: nat) {
    |begin| <= start < finish && IsOnceAt(t, begin, start - |begin|) && IsOnceAt(t, end, finish)
  }

  lemma RegionAt(t: string, begin: string, end: string, start: nat, finish: nat)
    requires begin != "" && end != "" && IsRegion(t, begin, end, start, finish)
    ensures IsIndex(t, begin, start - |begin|) && IsIndex(t, end, finish)
    ensures Region(t, begin, end) == Some(t[start..finish])
  {
    OnceIsCounted(t, begin, start - |begin|);
    OnceIsCounted(t, end, finish);
  }

  lemma RegionIs(t: string, begin: string, end: string)
    requires begin != "" && end != "" && Region(t, begin, end).Some?
    ensures Index(t, begin).Some? && Index(t, end).Some?
    ensures IsRegion(t, begin, end, Index(t, begin).value + |begin|, Index(t, end).value)
  {
    CountedIsOnce(t, begin);
    CountedIsOnce(t, end);
  }

  lemma ReplaceAt(t: string, begin: string, end: string, start: nat, finish: nat, contents: string)
    requires begin != "" && end != "" && IsRegion(t, begin, end, start, finish)
    ensures Replace(t, begin, end, contents) == Some(t[..start] + Replacement(contents) + t[finish..])
  {
    RegionAt(t, begin, end, start, finish);
  }

  /** Replacing a region keeps every character outside it. */
  lemma ReplaceKeepsTheRest(text: string, begin: string, end: string, contents: string)
    requires begin != "" && end != "" && Region(text, begin, end).Some?
    ensures var start, finish := Index(text, begin).value + |begin|, Index(text, end).value;
            Replace(text, begin, end, contents)
            == Some(Join(text[..start], StripNewlines(contents), text[finish..]))
  {
    RegionIs(text, begin, end);
    ReplaceAt(text, begin, end, Index(text, begin).value + |begin|, Index(text, end).value, contents);
  }

  /** A text whose markers are where they should be, except perhaps between the cuts. */
  ghost predicate MarkedAround(t: string, a: nat, b: nat, begin: string, end: string) {
    && CutAt(t, a, b) && |begin| <= a && OccursAt(t, begin, a - |begin|) && NotBefore(t, begin, a - |begin|)
    && OccursAt(t, end, b + 1) && !Occurs(t[..a], end)
    && !Occurs(t[b + 1..], begin) && !Occurs(t[b + 1 + |end|..], end)
  }

  lemma BeginInside(t: string, a: nat, b: nat, begin: string, c: string)
    requires CutAt(t, a, b) && c == t[a + 1..b] && Occurs(c, begin)
    ensures Occurs(t[a..], begin)
  {
    var i: nat :| OccursAt(c, begin, i);
    OccursInPart(t, begin, a + 1, b, i);
    OccursBehind(t, begin, a, 1 + i);
  }

  lemma BeginOnlyInside(t: string, a: nat, b: nat, begin: string, c: string)
    requires IsMarker(begin) && CutAt(t, a, b) && c == t[a + 1..b] && !Occurs(t[b + 1..], begin)
    requires Occurs(t[a..], begin)
    ensures Occurs(c, begin)
  {
    var i: nat :| OccursAt(t[a..], begin, i);
    OccursBehind(t, begin, a, i);
    OccurrenceIsInOnePart(t, a, b, begin, a + i);
  }

  lemma BeginIsOne(t: string, a: nat, b: nat, begin: string, c: string)
    requires IsMarker(begin) && CutAt(t, a, b) && c == t[a + 1..b] && |begin| <= a
    requires OccursAt(t, begin, a - |begin|) && NotBefore(t, begin, a - |begin|) && !Occurs(t[b + 1..], begin)
    ensures IsOnceAt(t, begin, a - |begin|) <==> !Occurs(c, begin)
  {
    assert a - |begin| + |begin| == a;
    if Occurs(c, begin) {
      BeginInside(t, a, b, begin, c);
    } else if Occurs(t[a..], begin) {
      BeginOnlyInside(t, a, b, begin, c);
    }
  }

  lemma OnceIsFirst(t: string, m: string, i: nat, j: nat)
    requires IsOnceAt(t, m, i) && OccursAt(t, m, j) && NotBefore(t, m, j)
    ensures i == j
  {}

  /** An occurrence before the cuts, between them, or behind. */
  lemma EndIsNotBefore(t: string, a: nat, b: nat, end: string, c: string)
    requires IsMarker(end) && CutAt(t, a, b) && c == t[a + 1..b] && !Occurs(c, end) && !Occurs(t[..a], end)
    ensures NotBefore(t, end, b + 1)
  {
    forall i: nat | i < b + 1 ensures !OccursAt(t, end, i) {
      if OccursAt(t, end, i) {
        OccurrenceIsInOnePart(t, a, b, end, i);
        if i + |end| <= a {
          assert t[..a] == t[0..a];
          OccursWithin(t, end, 0, a, i);
        }
      }
    }
  }

  lemma LaterOccurs(t: string, m: string, i: nat, j: nat)
    requires OccursAt(t, m, j) && i + |m| <= j
    ensures Occurs(t[i + |m|..], m)
  {
    OccursBehind(t, m, i + |m|, j - i - |m|);
  }

  /** An end marker inside comes before the one behind the region. */
  lemma EndInside(t: string, a: nat, b: nat, end: string, c: string, i: nat)
    requires end != "" && CutAt(t, a, b) && c == t[a + 1..b] && Occurs(c, end) && OccursAt(t, end, b + 1)
    ensures !IsOnceAt(t, end, i)
  {
    var k: nat :| OccursAt(c, end, k);
    OccursInPart(t, end, a + 1, b, k);
    if i <= a + 1 + k { LaterOccurs(t, end, i, b + 1); }
  }

  lemma PutBack(t: string, i: nat, j: nat, part: string)
    requires i <= j <= |t| && part == t[i..j]
    ensures t[..i] + part + t[j..] == t
  {}

  lemma RegionBetweenCuts(t: string, a: nat, b: nat, begin: string, end: string, c: string, framed: string)
    requires IsMarker(begin) && IsMarker(end) && MarkedAround(t, a, b, begin, end)
    requires c == t[a + 1..b] && framed == t[a..b + 1]
    ensures Region(t, begin, end) == Some(framed) <==> !Occurs(c, begin) && !Occurs(c, end)
  {
    BeginIsOne(t, a, b, begin, c);
    if !Occurs(c, begin) && !Occurs(c, end) {
      EndIsNotBefore(t, a, b, end, c);
      RegionAt(t, begin, end, a, b + 1);
    } else {
      NoRegion(t, a, b, begin, end, c);
    }
  }

  lemma NoRegion(t: string, a: nat, b: nat, begin: string, end: string, c: string)
    requires IsMarker(begin) && IsMarker(end) && MarkedAround(t, a, b, begin, end) && c == t[a + 1..b]
    requires Occurs(c, begin) || Occurs(c, end)
    ensures Region(t, begin, end).None?
  {
    if Region(t, begin, end).Some? {
      RegionIs(t, begin, end);
      OnceIsFirst(t, begin, Index(t, begin).value, a - |begin|);
      BeginIsOne(t, a, b, begin, c);
      EndInside(t, a, b, end, c, Index(t, end).value);
    }
  }

  lemma BeginStays(text: string, begin: string, t: string, a: nat)
    requires |begin| <= a <= |text| && a <= |t| && t[..a] == text[..a]
    requires OccursAt(text, begin, a - |begin|) && NotBefore(text, begin, a - |begin|)
    ensures OccursAt(t, begin, a - |begin|) && NotBefore(t, begin, a - |begin|)
  {
    forall i: nat | i <= a - |begin| ensures OccursAt(t, begin, i) <==> OccursAt(text, begin, i) {
      SamePrefix(t, text, a, begin, i);
    }
  }

  lemma NoneBehind(text: string, m: string, a: nat, finish: nat)
    requires a <= finish <= |text| && !Occurs(text[a..], m)
    ensures !Occurs(text[finish..], m)
  {
    if i: nat :| OccursAt(text[finish..], m, i) {
      OccursBehind(text, m, finish, i);
      OccursBehind(text, m, a, finish - a + i);
    }
  }

  /** Two texts that are the same from some place on. */
  ghost predicate SameFrom(t: string, i: nat, text: string, j: nat) {
    i <= |t| && j <= |text| && t[i..] == text[j..]
  }

  lemma EndStays(text: string, end: string, t: string, i: nat, j: nat)
    requires SameFrom(t, i, text, j) && OccursAt(text, end, j) && !Occurs(text[j + |end|..], end)
    ensures OccursAt(t, end, i) && !Occurs(t[i + |end|..], end)
  {
    OccursBehind(text, end, j, 0);
    OccursBehind(t, end, i, 0);
    assert t[i + |end|..] == t[i..][|end|..];
    assert text[j + |end|..] == text[j..][|end|..];
  }

  /** `t` is `text` with `framed`, which is `c` between newlines, instead of its region. */
  ghost predicate IsReplaced(text: string, start: nat, finish: nat, t: string, b: nat, c: string, framed: string) {
    && CutAt(t, start, b) && start <= |text| && t[..start] == text[..start] && SameFrom(t, b + 1, text, finish)
    && c == t[start + 1..b] && framed == t[start..b + 1]
  }

  lemma EndIsNotInside(text: string, end: string, start: nat, finish: nat)
    requires start < finish && start <= |text| && IsOnceAt(text, end, finish)
    ensures !Occurs(text[..start], end)
  {
    if i: nat :| OccursAt(text[..start], end, i) {
      assert text[..start] == text[0..start];
      OccursInPart(text, end, 0, start, i);
    }
  }

  /** The markers of a text stay where they are when its region is replaced. */
  lemma MarkersStay(text: string, begin: string, end: string, start: nat, finish: nat, t: string, b: nat, c: string,
                    framed: string)
    requires begin != "" && end != "" && IsRegion(text, begin, end, start, finish)
    requires IsReplaced(text, start, finish, t, b, c, framed)
    ensures MarkedAround(t, start, b, begin, end)
  {
    BeginStays(text, begin, t, start);
    NoneBehind(text, begin, start, finish);
    EndIsNotInside(text, end, start, finish);
    EndStays(text, end, t, b + 1, finish);
  }

  lemma SamePrefix(s: string, t: string, n: nat, m: string, i: nat)
    requires n <= |s| && n <= |t| && s[..n] == t[..n] && i + |m| <= n
    ensures OccursAt(s, m, i) <==> OccursAt(t, m, i)
  {
    assert forall k :: i <= k < n ==> s[k] == s[..n][k] == t[..n][k] == t[k];
  }

  lemma ReplacedIs(text: string, start: nat, finish: nat, contents: string, t: string)
    requires start <= finish <= |text| && t == text[..start] + Replacement(contents) + text[finish..]
    ensures IsReplaced(text, start, finish, t, start + 1 + |StripNewlines(contents)|, StripNewlines(contents),
                       Replacement(contents))
  {
    JoinIsCut(text[..start], StripNewlines(contents), text[finish..]);
  }

  /** What was written is read back if and only if it contains neither marker. */
  lemma ReplacedReadsBack(text: string, begin: string, end: string, contents: string, t: string)
    requires IsMarker(begin) && IsMarker(end) && Replace(text, begin, end, contents) == Some(t)
    ensures var c := StripNewlines(contents);
            Region(t, begin, end) == Some(Replacement(contents)) <==> !Occurs(c, begin) && !Occurs(c, end)
  {
    RegionIs(text, begin, end);
    WrittenReadsBack(text, begin, end, Index(text, begin).value + |begin|, Index(text, end).value, contents, t);
  }

  lemma WrittenReadsBack(text: string, begin: string, end: string, start: nat, finish: nat, contents: string, t: string)
    requires IsMarker(begin) && IsMarker(end) && IsRegion(text, begin, end, start, finish)
    requires Replace(text, begin, end, contents) == Some(t)
    ensures var c := StripNewlines(contents);
            Region(t, begin, end) == Some(Replacement(contents)) <==> !Occurs(c, begin) && !Occurs(c, end)
  {
    var c, framed := StripNewlines(contents), Replacement(contents);
    var b := start + 1 + |c|;
    ReplaceAt(text, begin, end, start, finish, contents);
    ReplacedIs(text, start, finish, contents, t);
    MarkersStay(text, begin, end, start, finish, t, b, c, framed);
    RegionBetweenCuts(t, start, b, begin, end, c, framed);
  }

  /** Generating again changes nothing. */
  lemma RegenerationIsStable(text: string, begin: string, end: string, contents: string, t: string)
    requires IsMarker(begin) && IsMarker(end) && Replace(text, begin, end, contents) == Some(t)
    requires !Occurs(StripNewlines(contents), begin) && !Occurs(StripNewlines(contents), end)
    ensures Replace(t, begin, end, contents) == Some(t)
  {
    ReplacedReadsBack(text, begin, end, contents, t);
    ReplacingWithItself(t, begin, end, contents);
  }

  lemma ReplacingWithItself(t: string, begin: string, end: string, contents: string)
    requires begin != "" && end != "" && Region(t, begin, end) == Some(Replacement(contents))
    ensures Replace(t, begin, end, contents) == Some(t)
  {
    RegionIs(t, begin, end);
    var start, finish := Index(t, begin).value + |begin|, Index(t, end).value;
    ReplaceAt(t, begin, end, start, finish, contents);
    RegionAt(t, begin, end, start, finish);
    PutBack(t, start, finish, Replacement(contents));
  }
}
