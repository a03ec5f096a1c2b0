/**
 * The referrer pattern `@https://servicewechat.com/(.*?)/(.*?)/page-frame.html@`
 * under PHP `preg_match` (PCRE, no modifiers).
 *
 * Read literally, the pattern is
 *
 *   "https://servicewechat"  any  "com/"  (group 1)  "/"  (group 2)  "/page-frame"  any  "html"
 *
 * where each `any` is one unescaped `.` and each group is a lazy `.*?`; a `.`
 * matches every character except a newline. The pattern is not anchored, so
 * `preg_match` reports the match at the leftmost starting position, and among
 * the matches there, the one backtracking reaches first: shortest group 1,
 * then shortest group 2. Characters stand for the bytes PCRE sees.
 */
module ReferrerPattern {
  import opened Wrappers

  const Scheme := "https://servicewechat"
  const HostTail := "com/"
  const PageStem := "/page-frame"
  const PageExt := "html"

  /** Characters from the start of a match to the start of group 1. */
  const HeadLength: nat := 26
  /** Characters from the end of group 2 to the end of a match. */
  const TailLength: nat := 16

  predicate LiteralAt(s: string, at: nat, w: string)
  {
    at + |w| <= |s| && s[at..at + |w|] == w
  }

  /** One unescaped `.`: any character but a newline. */
  predicate WildcardAt(s: string, at: nat)
  {
    at < |s| && s[at] != '\n'
  }

  /** `s[from..to]` can be eaten by `.*?`. */
  predicate NoNewline(s: string, from: nat, to: nat)
  {
    forall x | from <= x < to && x < |s| :: s[x] != '\n'
  }

  /** `https://servicewechat.com/` (dot wild) starts at `i`. */
  predicate HeadAt(s: string, i: nat)
  {
    LiteralAt(s, i, Scheme) && WildcardAt(s, i + 21) && LiteralAt(s, i + 22, HostTail)
  }

  /** `/page-frame.html` (dot wild) starts at `k`. */
  predicate TailAt(s: string, k: nat)
  {
    LiteralAt(s, k, PageStem) && WildcardAt(s, k + 11) && LiteralAt(s, k + 12, PageExt)
  }

  /**
   * One way the pattern matches `s`: starting at `start`, group 1 is
   * `s[start + 26 .. idEnd]`, `s[idEnd]` is the separating slash, group 2 is
   * `s[idEnd + 1 .. versionEnd]`, and the page suffix starts at `versionEnd`.
   */
  datatype Span = Span(start: nat, idEnd: nat, versionEnd: nat)

  predicate Matches(s: string, m: Span)
  {
    && m.start + HeadLength <= m.idEnd < m.versionEnd <= |s|
    && HeadAt(s, m.start)
    && NoNewline(s, m.start + HeadLength, m.idEnd)
    && s[m.idEnd] == '/'
    && NoNewline(s, m.idEnd + 1, m.versionEnd)
    && TailAt(s, m.versionEnd)
  }

  /** PCRE tries `a` no later than `b`: earlier start, then shorter group 1, then shorter group 2. */
  predicate TriedBefore(a: Span, b: Span)
  {
    || a.start < b.start
    || (a.start == b.start && a.idEnd < b.idEnd)
    || (a.start == b.start && a.idEnd == b.idEnd && a.versionEnd <= b.versionEnd)
  }

  /** The match `preg_match` reports. */
  ghost predicate IsReported(s: string, m: Span)
  {
    Matches(s, m) && forall m' | Matches(s, m') :: TriedBefore(m, m')
  }

  function GroupOne(s: string, m: Span): string
    requires Matches(s, m)
  {
    s[m.start + HeadLength .. m.idEnd]
  }

  /** Lazy group 2: the first suffix position at or after `k` reachable without crossing a newline. */
  function FindVersionEnd(s: string, k: nat): (r: Option<nat>)
    requires k <= |s|
    ensures r.Some? ==> k <= r.value <= |s| && TailAt(s, r.value) && NoNewline(s, k, r.value)
    ensures r.Some? ==> forall k' | k <= k' < r.value :: !TailAt(s, k')
    ensures r.None? ==> forall k' | k <= k' <= |s| && NoNewline(s, k, k') :: !TailAt(s, k')
    decreases |s| - k
  {
    if TailAt(s, k) then Some(k)
    else if k < |s| && s[k] != '\n' then FindVersionEnd(s, k + 1)
    else None
  }

  /**
   * Lazy group 1 of a match starting at `i`, with `s[i + 26 .. j]` already
   * eaten: try to close the group at `j`, else eat one more character.
   */
  function MatchFrom(s: string, i: nat, j: nat): (r: Option<Span>)
    requires HeadAt(s, i) && i + HeadLength <= j <= |s| && NoNewline(s, i + HeadLength, j)
    ensures r.Some? ==> r.value.start == i && j <= r.value.idEnd && Matches(s, r.value)
    ensures r.Some? ==> forall m | Matches(s, m) && m.start == i && j <= m.idEnd :: TriedBefore(r.value, m)
    ensures r.None? ==> forall m | Matches(s, m) && m.start == i :: m.idEnd < j
    decreases |s| - j
  {
    var version := if j < |s| && s[j] == '/' then FindVersionEnd(s, j + 1) else None;
    if version.Some? then Some(Span(i, j, version.value))
    else if j < |s| && s[j] != '\n' then MatchFrom(s, i, j + 1)
    else None
  }

  /** The first match PCRE finds when it anchors the attempt at `i`. */
  function MatchAt(s: string, i: nat): (r: Option<Span>)
    requires i <= |s|
    ensures r.Some? ==> r.value.start == i && Matches(s, r.value)
    ensures r.Some? ==> forall m | Matches(s, m) && m.start == i :: TriedBefore(r.value, m)
    ensures r.None? ==> forall m | Matches(s, m) :: m.start != i
  {
    if HeadAt(s, i) then MatchFrom(s, i, i + HeadLength) else None
  }

  /** The unanchored search: try every start position from `i` on, leftmost first. */
  function SearchFrom(s: string, i: nat): (r: Option<Span>)
    requires i <= |s|
    ensures r.Some? ==> i <= r.value.start && Matches(s, r.value)
    ensures r.Some? ==> forall m | Matches(s, m) && i <= m.start :: TriedBefore(r.value, m)
    ensures r.None? ==> forall m | Matches(s, m) :: m.start < i
    decreases |s| - i
  {
    var here := MatchAt(s, i);
    if here.Some? then here
    else if i < |s| then SearchFrom(s, i + 1)
    else None
  }

  /** `preg_match($pattern, $s, $matches)`: the reported match, if any. */
  function PregMatch(s: string): (r: Option<Span>)
    ensures r.Some? ==> IsReported(s, r.value)
    ensures r.None? <==> forall m :: !Matches(s, m)
  {
    SearchFrom(s, 0)
  }

  /** `$matches[1]` after a successful `preg_match`, or `None` when it returns 0. */
  function AppIdOf(s: string): (r: Option<string>)
    ensures r.Some? <==> exists m :: Matches(s, m)
    ensures r.Some? ==> exists m :: IsReported(s, m) && GroupOne(s, m) == r.value
  {
    match PregMatch(s)
    case Some(m) => Some(GroupOne(s, m))
    case None => None
  }

  lemma TriedBeforeAntisymmetric(a: Span, b: Span)
    requires TriedBefore(a, b) && TriedBefore(b, a)
    ensures a == b
  {
  }

  /** The reported match is exactly the first match in PCRE's trial order. */
  lemma PregMatchIsFirst(s: string, m: Span)
    ensures PregMatch(s) == Some(m) <==> IsReported(s, m)
  {
    if IsReported(s, m) {
      var r := PregMatch(s);
      assert r.Some?;
      TriedBeforeAntisymmetric(r.value, m);
    }
  }

  /** Every match is at least 43 characters long, so shorter referrers never match. */
  lemma ShortReferrerHasNoAppId(s: string)
    requires |s| < HeadLength + 1 + TailLength
    ensures AppIdOf(s) == None
  {
    assert forall m :: !Matches(s, m);
  }

  /** A well-formed plugin referrer, with the two wildcards as `wild1` and `wild2`. */
  function Referrer(wild1: char, id: string, version: string, wild2: char, rest: string): string
  {
    Scheme + [wild1] + HostTail + id + "/" + version + PageStem + [wild2] + PageExt + rest
  }

  lemma HeadLayout(s: string, wild1: char, body: string)
    requires s == Scheme + [wild1] + HostTail + body
    requires wild1 != '\n'
    ensures HeadAt(s, 0) && s[HeadLength..] == body
  {
    assert s[..21] == Scheme;
    assert s[22..26] == HostTail;
  }

  lemma TailLayout(s: string, k: nat, wild2: char, rest: string)
    requires k <= |s| && s[k..] == PageStem + [wild2] + PageExt + rest
    requires wild2 != '\n'
    ensures TailAt(s, k)
  {
    var t := s[k..];
    assert t[..11] == PageStem && t[12..16] == PageExt;
    assert s[k..k + 11] == t[..11];
    assert s[k + 12..k + 16] == t[12..16];
  }

  /** Where the pieces of `id + "/" + version + tail` sit. */
  lemma BodyLayout(body: string, id: string, version: string, tail: string)
    requires body == id + "/" + version + tail
    ensures body[..|id|] == id && body[|id|] == '/'
    ensures body[|id| + 1..] == version + tail
    ensures body[|id| + 1..][..|version|] == version && body[|id| + 1..][|version|..] == tail
  {
    assert body == id + ("/" + (version + tail));
  }

  /** Group 1 ends at the first slash after the host once a match starts at 0. */
  lemma FirstSlashEndsGroupOne(s: string, e: Span)
    requires Matches(s, e) && e.start == 0
    requires forall x | HeadLength <= x < e.idEnd :: s[x] != '/'
    ensures PregMatch(s).Some?
    ensures GroupOne(s, PregMatch(s).value) == s[HeadLength..e.idEnd]
  {
    var m := PregMatch(s).value;
    assert TriedBefore(m, e);
    assert s[m.idEnd] == '/';
    assert m.idEnd == e.idEnd;
  }

  /** Where the head, the id, the slash, the version and the tail of a plugin referrer sit. */
  lemma ReferrerLayout(wild1: char, id: string, version: string, wild2: char, rest: string)
    requires wild1 != '\n' && wild2 != '\n'
    ensures var s, j := Referrer(wild1, id, version, wild2, rest), HeadLength + |id|;
      && HeadAt(s, 0) && j < |s| && s[HeadLength..j] == id && s[j] == '/'
      && j + 1 + |version| <= |s| && s[j + 1..j + 1 + |version|] == version
      && TailAt(s, j + 1 + |version|)
  {
    var s := Referrer(wild1, id, version, wild2, rest);
    var tail := PageStem + [wild2] + PageExt + rest;
    var body := id + "/" + version + tail;
    assert s == Scheme + [wild1] + HostTail + body;
    HeadLayout(s, wild1, body);
    BodyLayout(body, id, version, tail);
    var j := HeadLength + |id|;
    var k := j + 1 + |version|;
    assert s[HeadLength..j] == id;
    assert s[j] == '/';
    assert s[j + 1..k] == version;
    assert s[k..] == tail;
    TailLayout(s, k, wild2, rest);
  }

  /** The characters of `s` from `from` on spell `w`. */
  lemma Spelled(s: string, from: nat, w: string)
    requires from + |w| <= |s| && s[from..from + |w|] == w
    ensures forall x | from <= x < from + |w| :: s[x] in w
  {
    forall x | from <= x < from + |w| ensures s[x] in w {
      assert s[x] == w[x - from];
    }
  }

  /** A head, an id without slash or newline, a slash, a version without newline and a tail make a match. */
  lemma LaidOutMatches(s: string, id: string, version: string)
    requires forall c | c in id :: c != '/' && c != '\n'
    requires forall c | c in version :: c != '\n'
    requires var j := HeadLength + |id|;
      && HeadAt(s, 0) && j < |s| && s[HeadLength..j] == id && s[j] == '/'
      && j + 1 + |version| <= |s| && s[j + 1..j + 1 + |version|] == version
      && TailAt(s, j + 1 + |version|)
    ensures Matches(s, Span(0, HeadLength + |id|, HeadLength + |id| + 1 + |version|))
    ensures forall x | HeadLength <= x < HeadLength + |id| :: s[x] != '/'
  {
    Spelled(s, HeadLength, id);
    Spelled(s, HeadLength + |id| + 1, version);
  }

  /**
   * From a referrer `https://servicewechat.com/ID/V/page-frame.html...` the app
   * id extracted is ID, as long as ID holds no slash or newline and V no
   * newline. V may hold further slashes (group 2 is lazy but group 1 stops at
   * the first slash), anything may follow the page name (the pattern is not
   * anchored at the end), and both dots may be any non-newline character.
   */
  lemma WellFormedReferrerAppId(wild1: char, id: string, version: string, wild2: char, rest: string)
    requires wild1 != '\n' && wild2 != '\n'
    requires forall c | c in id :: c != '/' && c != '\n'
    requires forall c | c in version :: c != '\n'
    ensures AppIdOf(Referrer(wild1, id, version, wild2, rest)) == Some(id)
  {
    var s := Referrer(wild1, id, version, wild2, rest);
    ReferrerLayout(wild1, id, version, wild2, rest);
    LaidOutMatches(s, id, version);
    FirstSlashEndsGroupOne(s, Span(0, HeadLength + |id|, HeadLength + |id| + 1 + |version|));
  }

  function Shift(m: Span, n: nat): Span
  {
    Span(n + m.start, n + m.idEnd, n + m.versionEnd)
  }

  /** `s` is the end of `t`, starting at position `n`. */
  predicate Embedded(t: string, n: nat, s: string)
  {
    n <= |t| && t[n..] == s
  }

  lemma AppendEmbeds(pre: string, s: string)
    ensures Embedded(pre + s, |pre|, s)
  {
    assert (pre + s)[|pre|..] == s;
  }

  lemma EmbeddedAt(t: string, n: nat, s: string, x: nat)
    requires Embedded(t, n, s) && x < |s|
    ensures n + x < |t| && t[n + x] == s[x]
  {
    assert t[n..][x] == t[n + x];
  }

  lemma EmbeddedSlice(t: string, n: nat, s: string, from: nat, to: nat)
    requires Embedded(t, n, s) && from <= to <= |s|
    ensures n + to <= |t| && t[n + from..n + to] == s[from..to]
  {
    var inT, inS := t[n + from..n + to], s[from..to];
    forall x | 0 <= x < to - from ensures inT[x] == inS[x] {
      EmbeddedAt(t, n, s, from + x);
    }
    assert inT == inS;
  }

  lemma LiteralAtShift(t: string, n: nat, s: string, at: nat, w: string)
    requires Embedded(t, n, s)
    ensures LiteralAt(t, n + at, w) <==> LiteralAt(s, at, w)
  {
    assert |t| == n + |s|;
    if at + |w| <= |s| {
      EmbeddedSlice(t, n, s, at, at + |w|);
    }
  }

  lemma NoNewlineUp(t: string, n: nat, s: string, from: nat, to: nat)
    requires Embedded(t, n, s)
    requires to <= |s| && NoNewline(s, from, to)
    ensures NoNewline(t, n + from, n + to)
  {
    forall x | n + from <= x < n + to && x < |t| ensures t[x] != '\n' {
      EmbeddedAt(t, n, s, x - n);
    }
  }

  lemma NoNewlineDown(t: string, n: nat, s: string, from: nat, to: nat)
    requires Embedded(t, n, s)
    requires to <= |s| && NoNewline(t, n + from, n + to)
    ensures NoNewline(s, from, to)
  {
    forall x | from <= x < to && x < |s| ensures s[x] != '\n' {
      EmbeddedAt(t, n, s, x);
    }
  }

  lemma HeadAtShift(t: string, n: nat, s: string, i: nat)
    requires Embedded(t, n, s)
    ensures HeadAt(t, n + i) <==> HeadAt(s, i)
  {
    LiteralAtShift(t, n, s, i, Scheme);
    LiteralAtShift(t, n, s, i + 22, HostTail);
    if i + 21 < |s| {
      EmbeddedAt(t, n, s, i + 21);
    }
  }

  lemma TailAtShift(t: string, n: nat, s: string, k: nat)
    requires Embedded(t, n, s)
    ensures TailAt(t, n + k) <==> TailAt(s, k)
  {
    LiteralAtShift(t, n, s, k, PageStem);
    LiteralAtShift(t, n, s, k + 12, PageExt);
    if k + 11 < |s| {
      EmbeddedAt(t, n, s, k + 11);
    }
  }

  /** A match of `s` is, shifted, a match of the text `s` ends. */
  lemma MatchesShiftUp(t: string, n: nat, s: string, m: Span)
    requires Embedded(t, n, s)
    requires Matches(s, m)
    ensures Matches(t, Shift(m, n))
  {
    HeadAtShift(t, n, s, m.start);
    TailAtShift(t, n, s, m.versionEnd);
    NoNewlineUp(t, n, s, m.start + HeadLength, m.idEnd);
    NoNewlineUp(t, n, s, m.idEnd + 1, m.versionEnd);
    EmbeddedAt(t, n, s, m.idEnd);
  }

  /** The parts of a match of `t` past position `n`, read in `s`. */
  lemma PartsDown(t: string, n: nat, s: string, i: nat, j: nat, k: nat)
    requires Embedded(t, n, s)
    requires HeadAt(t, n + i) && TailAt(t, n + k) && n + j < |t|
    ensures HeadAt(s, i) && TailAt(s, k)
    ensures j < |s| && s[j] == t[n + j]
  {
    HeadAtShift(t, n, s, i);
    TailAtShift(t, n, s, k);
    EmbeddedAt(t, n, s, j);
  }

  /** A match of `t` past position `n` is, shifted back, a match of `s`. */
  lemma MatchesShiftDown(t: string, n: nat, s: string, m: Span)
    requires Embedded(t, n, s)
    requires Matches(t, Shift(m, n))
    ensures Matches(s, m)
  {
    PartsDown(t, n, s, m.start, m.idEnd, m.versionEnd);
    NoNewlineDown(t, n, s, m.start + HeadLength, m.idEnd);
    NoNewlineDown(t, n, s, m.idEnd + 1, m.versionEnd);
  }

  /** Matching is unaffected by text placed in front, once positions are shifted. */
  lemma MatchesShift(pre: string, s: string, m: Span)
    ensures Matches(pre + s, Shift(m, |pre|)) <==> Matches(s, m)
  {
    AppendEmbeds(pre, s);
    if Matches(s, m) {
      MatchesShiftUp(pre + s, |pre|, s, m);
    }
    if Matches(pre + s, Shift(m, |pre|)) {
      MatchesShiftDown(pre + s, |pre|, s, m);
    }
  }

  /** Group 1 of a shifted match is the same text. */
  lemma GroupOneShift(t: string, n: nat, s: string, m: Span)
    requires Embedded(t, n, s)
    requires Matches(s, m)
    ensures Matches(t, Shift(m, n))
    ensures GroupOne(t, Shift(m, n)) == GroupOne(s, m)
  {
    MatchesShiftUp(t, n, s, m);
    EmbeddedSlice(t, n, s, m.start + HeadLength, m.idEnd);
  }

  /** No match of `t` starts before `n` when `t[..n]` holds no `h`, the pattern's first character. */
  predicate NoHBefore(t: string, n: nat)
  {
    forall x | 0 <= x < n && x < |t| :: t[x] != 'h'
  }

  lemma PrefixNoH(pre: string, s: string)
    requires forall c | c in pre :: c != 'h'
    ensures NoHBefore(pre + s, |pre|)
  {
    forall x | 0 <= x < |pre| ensures (pre + s)[x] != 'h' {
      assert (pre + s)[x] == pre[x] && pre[x] in pre;
    }
  }

  /** Every match of `t` lies past the `h`-free prefix, and there it is a match of `s`. */
  lemma MatchInPrefixed(t: string, n: nat, s: string, m: Span)
    requires Embedded(t, n, s) && NoHBefore(t, n)
    requires Matches(t, m)
    ensures n <= m.start
    ensures Matches(s, Span(m.start - n, m.idEnd - n, m.versionEnd - n))
  {
    assert t[m.start..m.start + 21] == Scheme;
    assert t[m.start] == 'h';
    var back := Span(m.start - n, m.idEnd - n, m.versionEnd - n);
    assert Shift(back, n) == m;
    MatchesShiftDown(t, n, s, back);
  }

  lemma PrefixedNoMatch(t: string, n: nat, s: string)
    requires Embedded(t, n, s) && NoHBefore(t, n)
    requires PregMatch(s) == None
    ensures PregMatch(t) == None
  {
    forall m' | Matches(t, m') ensures false {
      MatchInPrefixed(t, n, s, m');
    }
  }

  lemma ShiftedIsReported(t: string, n: nat, s: string, m: Span)
    requires Embedded(t, n, s) && NoHBefore(t, n)
    requires IsReported(s, m)
    ensures IsReported(t, Shift(m, n))
  {
    var shifted := Shift(m, n);
    MatchesShiftUp(t, n, s, m);
    forall m' | Matches(t, m') ensures TriedBefore(shifted, m') {
      MatchInPrefixed(t, n, s, m');
    }
  }

  lemma PrefixedFirstMatch(t: string, n: nat, s: string, m: Span)
    requires Embedded(t, n, s) && NoHBefore(t, n)
    requires PregMatch(s) == Some(m)
    ensures PregMatch(t) == Some(Shift(m, n))
  {
    ShiftedIsReported(t, n, s, m);
    PregMatchIsFirst(t, Shift(m, n));
  }

  /**
   * The pattern is not anchored: putting any text without an `h` in front of a
   * referrer leaves the extracted app id unchanged.
   */
  lemma UnanchoredPrefix(pre: string, s: string)
    requires forall c | c in pre :: c != 'h'
    ensures AppIdOf(pre + s) == AppIdOf(s)
  {
    var t, n := pre + s, |pre|;
    AppendEmbeds(pre, s);
    PrefixNoH(pre, s);
    if PregMatch(s).None? {
      PrefixedNoMatch(t, n, s);
    } else {
      var m := PregMatch(s).value;
      PrefixedFirstMatch(t, n, s, m);
      GroupOneShift(t, n, s, m);
    }
  }
}
