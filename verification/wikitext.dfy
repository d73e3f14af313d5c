/** The regular expressions of the wikitext parser, each written out as the
    scanner that JavaScript's backtracking matcher amounts to for that one
    pattern (leftmost match, greedy and lazy quantifiers tried in their
    order). */
module Wikitext {
  import opened Wrappers
  import opened Text
  import opened Scanning

  // ============ headings: /^===\s*(.+?)\s*===/m, split on with the capture kept

  /** `^` under the `m` flag. */
  predicate AtLineStart(s: string, q: nat)
    requires q <= |s|
  {
    q == 0 || IsLineTerminator(s[q - 1])
  }

  /** `\s*===` at `j`: `===` after some spaces. */
  predicate ClosesAt(s: string, j: nat)
    requires j <= |s|
    decreases |s| - j
  {
    OccursAt(s, "===", j) || (j < |s| && IsSpace(s[j]) && ClosesAt(s, j + 1))
  }

  /** The `===` can only follow the whole space run, since `=` is no space:
      the greedy `\s*` needs no shorter try. */
  lemma {:induction false} ClosesAtRun(s: string, j: nat)
    requires j <= |s|
    ensures ClosesAt(s, j) <==> OccursAt(s, "===", j + Run(s, j, IsSpace))
    decreases |s| - j
  {
    if Run(s, j, IsSpace) == 0 {
      ClosesAtStop(s, j);
    } else {
      ClosesAtSpace(s, j);
      ClosesAtRun(s, j + 1);
    }
  }

  /** A space before `===` only moves the closing on. */
  lemma ClosesAtSpace(s: string, j: nat)
    requires j <= |s| && Run(s, j, IsSpace) > 0
    ensures j < |s| && ClosesAt(s, j) == ClosesAt(s, j + 1)
    ensures Run(s, j, IsSpace) == 1 + Run(s, j + 1, IsSpace)
  {
    assert IsSpace(s[j]);
  }

  /** Where no space stands, the closing is `===` right there. */
  lemma ClosesAtStop(s: string, j: nat)
    requires j <= |s| && Run(s, j, IsSpace) == 0
    ensures ClosesAt(s, j) <==> OccursAt(s, "===", j)
  {
  }

  /** The lazy `(.+?)` begun at `t`: the shortest title `s[t..e]`, at least
      one character, crossing no line terminator, that `\s*===` closes. */
  function LazyTitle(s: string, t: nat, e: nat): (r: Option<nat>)
    requires t < e <= |s|
    ensures r.Some? ==> e <= r.value <= |s| && ClosesAt(s, r.value)
    decreases |s| - e
  {
    if IsLineTerminator(s[e - 1]) then None
    else if ClosesAt(s, e) then Some(e)
    else if e == |s| then None
    else LazyTitle(s, t, e + 1)
  }

  /** The lazy title is the shortest one: `\s*===` closes at no earlier end,
      and the title crosses no line terminator. */
  lemma {:induction false} LazyTitleShortest(s: string, t: nat, e: nat)
    requires t < e <= |s|
    requires forall k :: t <= k < e - 1 ==> !IsLineTerminator(s[k])
    ensures LazyTitle(s, t, e).Some? ==>
      && (forall k :: t <= k < LazyTitle(s, t, e).value ==> !IsLineTerminator(s[k]))
      && (forall k :: e <= k < LazyTitle(s, t, e).value ==> !ClosesAt(s, k))
    decreases |s| - e
  {
    if !IsLineTerminator(s[e - 1]) && !ClosesAt(s, e) && e < |s| {
      var r := LazyTitle(s, t, e + 1);
      assert LazyTitle(s, t, e) == r;
      LazyTitleShortest(s, t, e + 1);
      if r.Some? {
        forall k | e <= k < r.value ensures !ClosesAt(s, k) {
          if k > e {
            assert e + 1 <= k;
          }
        }
      }
    }
  }

  /** A title from `t` to `e`: at least one character, no line terminator,
      and `\s*===` right after it. */
  predicate TitleSpan(s: string, t: nat, e: nat) {
    t < e <= |s| && (forall k :: t <= k < e ==> !IsLineTerminator(s[k])) && ClosesAt(s, e)
  }

  /** Any title from `t` ending at or after `e` lets the lazy search from
      `e` succeed, no later than that title's end. */
  lemma {:induction false} LazyTitleComplete(s: string, t: nat, e: nat, f: nat)
    requires t < e <= f && TitleSpan(s, t, f)
    ensures LazyTitle(s, t, e).Some? && LazyTitle(s, t, e).value <= f
    decreases f - e
  {
    assert !IsLineTerminator(s[e - 1]);
    if ClosesAt(s, e) {
      assert LazyTitle(s, t, e) == Some(e);
    } else {
      assert e < f;
      LazyTitleComplete(s, t, e + 1, f);
      assert LazyTitle(s, t, e) == LazyTitle(s, t, e + 1);
    }
  }

  /** The lazy `(.+?)` begun at `t` ends at `e` exactly when `s[t..e]` is
      the shortest title there. */
  lemma LazyTitleExact(s: string, t: nat, e: nat)
    requires t < |s|
    ensures LazyTitle(s, t, t + 1) == Some(e) <==> TitleSpan(s, t, e) && forall f :: t < f < e ==> !TitleSpan(s, t, f)
  {
    var r := LazyTitle(s, t, t + 1);
    LazyTitleShortest(s, t, t + 1);
    if r == Some(e) {
      forall f | t < f < e ensures !TitleSpan(s, t, f) {
        assert !ClosesAt(s, f);
      }
    }
    if TitleSpan(s, t, e) && forall f :: t < f < e ==> !TitleSpan(s, t, f) {
      LazyTitleComplete(s, t, t + 1, e);
      assert TitleSpan(s, t, r.value);
    }
  }

  /** The greedy `\s*` before the title: the title may start after `k` of
      the spaces at `q`, the longest choice tried first. Returns the
      title's bounds. */
  function TitleFrom(s: string, q: nat, k: nat): (r: Option<(nat, nat)>)
    requires q + k <= |s|
    ensures r.Some? ==> q <= r.value.0 < r.value.1 <= |s| && ClosesAt(s, r.value.1)
    decreases k
  {
    var t := q + k;
    if t < |s| && LazyTitle(s, t, t + 1).Some? then Some((t, LazyTitle(s, t, t + 1).value))
    else if k == 0 then None
    else TitleFrom(s, q, k - 1)
  }

  /** `s[t..e]` is the shortest title from `t`. */
  predicate ShortestTitle(s: string, t: nat, e: nat) {
    TitleSpan(s, t, e) && forall f :: t < f < e ==> !TitleSpan(s, t, f)
  }

  /** No title starts anywhere from `lo` to `hi`, both included. */
  ghost predicate NoTitleIn(s: string, lo: nat, hi: nat) {
    forall t: nat, f: nat :: lo <= t <= hi ==> !TitleSpan(s, t, f)
  }

  /** Where the lazy search from `t` fails, no title starts at `t`. */
  lemma NoTitleAt(s: string, t: nat)
    requires t <= |s| && (t == |s| || LazyTitle(s, t, t + 1).None?)
    ensures NoTitleIn(s, t, t)
  {
    forall t', f | t <= t' <= t && TitleSpan(s, t', f) ensures false {
      LazyTitleComplete(s, t, t + 1, f);
    }
  }

  /** A range without titles grows by one position without a title. */
  lemma NoTitleExtend(s: string, lo: nat, hi: nat)
    requires hi > 0 && NoTitleIn(s, lo, hi - 1) && NoTitleIn(s, hi, hi)
    ensures NoTitleIn(s, lo, hi)
  {
    forall t: nat, f: nat | lo <= t <= hi ensures !TitleSpan(s, t, f) {
      if t < hi {
        assert lo <= t <= hi - 1;
      } else {
        assert hi <= t <= hi;
      }
    }
  }

  /** The search over the space counts `k` down to 0 finds the largest
      start with a title, and that start's shortest title. */
  lemma {:induction false} TitleFromExact(s: string, q: nat, k: nat)
    requires q + k <= |s|
    ensures TitleFrom(s, q, k).Some? ==>
      var (t, e) := TitleFrom(s, q, k).value;
      q <= t <= q + k && ShortestTitle(s, t, e) && NoTitleIn(s, t + 1, q + k)
    ensures TitleFrom(s, q, k).None? ==> NoTitleIn(s, q, q + k)
    decreases k, 1
  {
    var t := q + k;
    if t < |s| && LazyTitle(s, t, t + 1).Some? {
      TitleFromHere(s, q, k);
    } else {
      NoTitleAt(s, t);
      if k > 0 {
        TitleFromBelow(s, q, k);
      }
    }
  }

  /** A title from `q + k` is the one found. */
  lemma TitleFromHere(s: string, q: nat, k: nat)
    requires q + k < |s| && LazyTitle(s, q + k, q + k + 1).Some?
    ensures TitleFrom(s, q, k).Some?
    ensures var (t, e) := TitleFrom(s, q, k).value;
      t == q + k && ShortestTitle(s, t, e) && NoTitleIn(s, t + 1, q + k)
  {
    var e := LazyTitle(s, q + k, q + k + 1).value;
    LazyTitleExact(s, q + k, e);
    assert TitleFrom(s, q, k) == Some((q + k, e));
    assert NoTitleIn(s, q + k + 1, q + k);
  }

  /** Without a title from `q + k`, the search goes on below it. */
  lemma {:induction false} TitleFromBelow(s: string, q: nat, k: nat)
    requires 0 < k && q + k <= |s| && NoTitleIn(s, q + k, q + k)
    requires q + k == |s| || LazyTitle(s, q + k, q + k + 1).None?
    ensures TitleFrom(s, q, k).Some? ==>
      var (t, e) := TitleFrom(s, q, k).value;
      q <= t <= q + k && ShortestTitle(s, t, e) && NoTitleIn(s, t + 1, q + k)
    ensures TitleFrom(s, q, k).None? ==> NoTitleIn(s, q, q + k)
    decreases k, 0
  {
    var k' := k - 1;
    TitleFromExact(s, q, k');
    var r := TitleFrom(s, q, k');
    assert TitleFrom(s, q, k) == r;
    assert q + k' == q + k - 1;
    if r.Some? {
      NoTitleExtend(s, r.value.0 + 1, q + k);
    } else {
      NoTitleExtend(s, q, q + k);
    }
  }

  /** A heading matched at `q`: its captured title and where the match ends. */
  datatype Heading = Heading(title: string, end: nat)

  function HeadingAt(s: string, q: nat): (r: Option<Heading>)
    requires q <= |s|
    ensures r.Some? ==> q < r.value.end <= |s|
    ensures r.Some? ==> AtLineStart(s, q) && OccursAt(s, "===", q)
  {
    if AtLineStart(s, q) && OccursAt(s, "===", q) then
      match TitleFrom(s, q + 3, Run(s, q + 3, IsSpace))
      case None => None
      case Some((t, e)) =>
        ClosesAtRun(s, e);
        Some(Heading(s[t..e], e + Run(s, e, IsSpace) + 3))
    else None
  }

  /** The heading pattern matched at `q` with the title `s[t..e]`: `===` at
      a line start, then spaces up to `t` (the greedy `\s*` may give some
      back), then a title. */
  predicate HeadingSpan(s: string, q: nat, t: nat, e: nat) {
    && q <= |s| && AtLineStart(s, q) && OccursAt(s, "===", q)
    && q + 3 <= t <= q + 3 + Run(s, q + 3, IsSpace) && TitleSpan(s, t, e)
  }

  /** A heading found at `q` has the latest title start the spaces allow,
      that start's shortest title, and ends after the closing spaces and
      `===`. */
  lemma HeadingAtSome(s: string, q: nat)
    requires q <= |s| && HeadingAt(s, q).Some?
    ensures exists t: nat, e: nat ::
      && HeadingSpan(s, q, t, e) && ShortestTitle(s, t, e)
      && HeadingAt(s, q).value == Heading(s[t..e], e + Run(s, e, IsSpace) + 3)
      && (forall t', f :: t < t' ==> !HeadingSpan(s, q, t', f))
  {
    var k := Run(s, q + 3, IsSpace);
    TitleFromExact(s, q + 3, k);
    var t := TitleFrom(s, q + 3, k).value.0;
    var e := TitleFrom(s, q + 3, k).value.1;
    assert HeadingSpan(s, q, t, e);
  }

  /** No heading is found at `q` exactly when the pattern cannot match there. */
  lemma HeadingAtNone(s: string, q: nat)
    requires q <= |s|
    ensures HeadingAt(s, q).None? <==> forall t, e :: !HeadingSpan(s, q, t, e)
  {
    if HeadingAt(s, q).Some? {
      HeadingAtSome(s, q);
    } else if AtLineStart(s, q) && OccursAt(s, "===", q) {
      TitleFromExact(s, q + 3, Run(s, q + 3, IsSpace));
    }
  }

  /** No heading matches at any position from `lo` up to, not including, `hi`. */
  predicate NoHeadingIn(s: string, lo: nat, hi: nat)
    requires hi <= |s|
    decreases hi - lo
  {
    lo >= hi || (HeadingAt(s, lo).None? && NoHeadingIn(s, lo + 1, hi))
  }

  /** `NoHeadingIn` rules out a heading at each position of its range. */
  lemma {:induction false} NoHeadingInAt(s: string, lo: nat, hi: nat, j: nat)
    requires hi <= |s| && lo <= j < hi && NoHeadingIn(s, lo, hi)
    ensures HeadingAt(s, j).None?
    decreases j - lo
  {
    if lo == j {
      assert HeadingAt(s, lo).None?;
    } else {
      NoHeadingInAt(s, lo + 1, hi, j);
    }
  }

  /** `NoHeadingIn` holds when no position of its range has a heading. */
  lemma {:induction false} NoHeadingInFrom(s: string, lo: nat, hi: nat)
    requires hi <= |s|
    requires forall j :: lo <= j < hi ==> HeadingAt(s, j).None?
    ensures NoHeadingIn(s, lo, hi)
    decreases hi - lo
  {
    if lo < hi {
      NoHeadingInFrom(s, lo + 1, hi);
    }
  }

  /** `NoHeadingIn` says exactly that no position of the range has a heading. */
  lemma NoHeadingInAll(s: string, lo: nat, hi: nat)
    requires hi <= |s|
    ensures NoHeadingIn(s, lo, hi) <==> forall j :: lo <= j < hi ==> HeadingAt(s, j).None?
  {
    if NoHeadingIn(s, lo, hi) {
      forall j | lo <= j < hi ensures HeadingAt(s, j).None? {
        NoHeadingInAt(s, lo, hi, j);
      }
    }
    if forall j :: lo <= j < hi ==> HeadingAt(s, j).None? {
      NoHeadingInFrom(s, lo, hi);
    }
  }

  /** The leftmost heading match at or after `q`. */
  function NextHeading(s: string, q: nat): (r: Option<nat>)
    requires q <= |s|
    ensures r.Some? ==> q <= r.value < |s| && HeadingAt(s, r.value).Some?
    ensures r.Some? ==> NoHeadingIn(s, q, r.value)
    ensures r.None? ==> NoHeadingIn(s, q, |s|)
    decreases |s| - q
  {
    if q == |s| then None
    else if HeadingAt(s, q).Some? then Some(q)
    else NextHeading(s, q + 1)
  }

  /** One season: a heading's captured title and the text up to the next heading. */
  datatype Section = Section(title: string, content: string)

  /** The array `split` returns, `[preamble, title1, content1, title2, ...]`,
      held as the preamble and the title/content pairs. */
  datatype Blocks = Blocks(preamble: string, sections: seq<Section>)

  /** `split` with a capturing regex, from position `p`: the text before the
      next heading, then each heading's title with the text up to the next
      heading. The preamble is the slice before the first match and holds
      none. */
  function SplitHeadingsFrom(s: string, p: nat): (blocks: Blocks)
    requires p <= |s|
    ensures p + |blocks.preamble| <= |s| && blocks.preamble == s[p..p + |blocks.preamble|]
    ensures blocks.sections == [] ==> blocks.preamble == s[p..]
    decreases |s| - p
  {
    match NextHeading(s, p)
    case None => Blocks(s[p..], [])
    case Some(j) =>
      var h := HeadingAt(s, j).value;
      var rest := SplitHeadingsFrom(s, h.end);
      Blocks(s[p..j], [Section(h.title, rest.preamble)] + rest.sections)
  }

  /** The heading match at every position: where it ends. */
  function HeadingMatches(s: string): (at: seq<Option<nat>>)
    ensures |at| == |s| && Advancing(at)
  {
    seq(|s|, q requires 0 <= q < |s| => if HeadingAt(s, q).Some? then Some(HeadingAt(s, q).value.end) else None)
  }

  /** `sections` pairs each heading match in `spans` with its title and the
      text from its end up to the next match, or to the end of the text. */
  predicate SectionsOf(s: string, spans: seq<(nat, nat)>, sections: seq<Section>)
    decreases |spans|
  {
    && |sections| == |spans|
    && (spans != [] ==>
         && spans[0].0 < spans[0].1 <= GapEnd(|s|, spans, 1) <= |s| && HeadingAt(s, spans[0].0).Some?
         && sections[0] == Section(HeadingAt(s, spans[0].0).value.title, s[spans[0].1..GapEnd(|s|, spans, 1)])
         && SectionsOf(s, spans[1..], sections[1..]))
  }

  /** The `k`-th section belongs to the `k`-th heading match. */
  lemma {:induction false} SectionAt(s: string, spans: seq<(nat, nat)>, sections: seq<Section>, k: nat)
    requires SectionsOf(s, spans, sections) && k < |spans|
    ensures spans[k].0 < spans[k].1 <= GapEnd(|s|, spans, k + 1) <= |s| && HeadingAt(s, spans[k].0).Some?
    ensures sections[k] == Section(HeadingAt(s, spans[k].0).value.title, s[spans[k].1..GapEnd(|s|, spans, k + 1)])
    decreases k
  {
    if k > 0 {
      assert spans[1..][k - 1] == spans[k] && sections[1..][k - 1] == sections[k];
      SectionAt(s, spans[1..], sections[1..], k - 1);
      assert GapEnd(|s|, spans[1..], k) == GapEnd(|s|, spans, k + 1);
    }
  }

  /** `NoHeadingIn` leaves the match table empty over its range. */
  lemma NoHeadingNoMatch(s: string, lo: nat, hi: nat)
    requires hi <= |s| && NoHeadingIn(s, lo, hi)
    ensures forall j :: lo <= j < hi ==> HeadingMatches(s)[j].None?
  {
    NoHeadingInAll(s, lo, hi);
  }

  /** `split` on the headings: the preamble runs up to the first heading
      match, and each section holds its heading's title and the text up to
      the next match, for the leftmost non-overlapping matches from `p`. */
  lemma {:induction false} SplitHeadingsFromScan(s: string, p: nat)
    requires p <= |s|
    ensures var spans := Scan(HeadingMatches(s), p);
      && SplitHeadingsFrom(s, p).preamble == s[p..GapEnd(|s|, spans, 0)]
      && SectionsOf(s, spans, SplitHeadingsFrom(s, p).sections)
    decreases |s| - p
  {
    var at := HeadingMatches(s);
    var b := SplitHeadingsFrom(s, p);
    match NextHeading(s, p)
    case None =>
      NoHeadingNoMatch(s, p, |s|);
      ScanSkip(at, p, |s|);
      assert b == Blocks(s[p..], []);
    case Some(j) =>
      NoHeadingNoMatch(s, p, j);
      ScanSkip(at, p, j);
      var h := HeadingAt(s, j).value;
      assert at[j] == Some(h.end);
      ScanTake(at, j);
      SplitHeadingsFromScan(s, h.end);
      var rest := SplitHeadingsFrom(s, h.end);
      assert b == Blocks(s[p..j], [Section(h.title, rest.preamble)] + rest.sections);
      var spans := Scan(at, p);
      assert GapEnd(|s|, spans, 1) == GapEnd(|s|, spans[1..], 0);
      assert b.sections[1..] == rest.sections;
  }

  /** Where the text before the next heading ends. */
  function PreambleEnd(s: string, p: nat): (e: nat)
    requires p <= |s|
    ensures p <= e <= |s| && NoHeadingIn(s, p, e)
  {
    match NextHeading(s, p)
    case None => |s|
    case Some(j) => j
  }

  /** The preamble from `p` runs up to the next heading. */
  lemma PreambleFromEnd(s: string, p: nat)
    requires p <= |s|
    ensures SplitHeadingsFrom(s, p).preamble == s[p..PreambleEnd(s, p)]
  {
  }

  function SplitHeadings(s: string): (blocks: Blocks)
    ensures StartsWith(s, blocks.preamble)
  {
    SplitHeadingsFrom(s, 0)
  }

  /** The preamble, the text before the first heading, holds no heading match. */
  lemma PreambleHasNoHeading(s: string)
    ensures forall j :: 0 <= j < |SplitHeadings(s).preamble| ==> HeadingAt(s, j).None?
  {
    PreambleFromEnd(s, 0);
    NoHeadingInAll(s, 0, PreambleEnd(s, 0));
  }

  /** With no heading anywhere, there are no sections and the preamble is the
      whole text. */
  lemma NoHeadingNoSections(s: string)
    requires forall j :: 0 <= j < |s| ==> HeadingAt(s, j).None?
    ensures SplitHeadings(s) == Blocks(s, [])
  {
  }

  // ============ tables: every match of /\{\|[\s\S]*?\|\}/g

  /** A table block: opens with `{|`, closes with `|}`, and (the lazy
      `[\s\S]*?`) holds no earlier `|}` after its opening token. */
  predicate IsTableBlock(t: string) {
    && StartsWith(t, "{|") && EndsWith(t, "|}") && |t| >= 4
    && forall j: nat :: 2 <= j < |t| - 2 ==> !OccursAt(t, "|}", j)
  }

  /** The text from an opener at `o` to the first closer at `c` is a table block. */
  lemma TableBlockSlice(s: string, o: nat, c: nat)
    requires o + 2 <= c && OccursAt(s, "{|", o) && OccursAt(s, "|}", c)
    requires forall j: nat :: o + 2 <= j < c ==> !OccursAt(s, "|}", j)
    ensures IsTableBlock(s[o..c + 2])
  {
    var t := s[o..c + 2];
    assert t[..2] == s[o..o + 2];
    assert t[|t| - 2..] == s[c..c + 2];
    forall j: nat | 2 <= j < |t| - 2 ensures !OccursAt(t, "|}", j) {
      OccursInSlice(s, "|}", o, c + 2, j);
    }
  }

  /** The table match at `o`: `{|`, then the lazy `[\s\S]*?` up to the
      first `|}` after it. Returns where the match ends. */
  function TableAt(s: string, o: nat): (r: Option<nat>)
    requires o <= |s|
    ensures r.Some? ==> o + 4 <= r.value <= |s|
  {
    if OccursAt(s, "{|", o) then
      match Find(s, "|}", o + 2)
      case None => None
      case Some(c) => Some(c + 2)
    else None
  }

  /** No table matches at `o` exactly when the opener is not there or no
      closer follows it; a match is a table block. */
  lemma TableAtSpec(s: string, o: nat)
    requires o <= |s|
    ensures TableAt(s, o).None? <==> !OccursAt(s, "{|", o) || forall c: nat :: o + 2 <= c ==> !OccursAt(s, "|}", c)
    ensures TableAt(s, o).Some? ==> OccursAt(s, "{|", o) && IsTableBlock(s[o..TableAt(s, o).value])
  {
    if OccursAt(s, "{|", o) {
      match Find(s, "|}", o + 2)
      case None =>
      case Some(c) =>
        TableBlockSlice(s, o, c);
    }
  }

  /** The table match at every position. */
  function TableMatches(s: string): (at: seq<Option<nat>>)
    ensures |at| == |s| && Advancing(at)
  {
    seq(|s|, o requires 0 <= o < |s| => TableAt(s, o))
  }

  /** Where the next table block from `from` starts and ends: the first
      opener, up to the end of the first closer after it. */
  function NextTable(s: string, from: nat): (r: Option<(nat, nat)>)
    requires from <= |s|
    ensures r.Some? ==> from <= r.value.0 && r.value.0 + 4 <= r.value.1 <= |s|
  {
    match Find(s, "{|", from)
    case None => None
    case Some(o) =>
      match Find(s, "|}", o + 2)
      case None => None
      case Some(c) => Some((o, c + 2))
  }

  /** Every table block from `from` on, in order: the leftmost one, then
      the next one after its closing `|}`. */
  function TablesFrom(s: string, from: nat): seq<string>
    requires from <= |s|
    decreases |s| - from
  {
    match NextTable(s, from)
    case None => []
    case Some((o, e)) => [s[o..e]] + TablesFrom(s, e)
  }

  /** A table found from `from` comes first, then the tables after it. */
  lemma TablesFromTake(s: string, from: nat, o: nat, e: nat)
    requires from <= |s| && NextTable(s, from) == Some((o, e))
    ensures TablesFrom(s, from) == [s[o..e]] + TablesFrom(s, e)
  {
  }

  /** Every table found is a table block. */
  lemma {:induction false} TablesFromBlocks(s: string, from: nat)
    requires from <= |s|
    ensures forall k :: 0 <= k < |TablesFrom(s, from)| ==> IsTableBlock(TablesFrom(s, from)[k])
    decreases |s| - from
  {
    match NextTable(s, from)
    case None =>
    case Some((o, e)) =>
      NextTableBlock(s, from, o, e);
      TablesFromBlocks(s, e);
      TablesFromTake(s, from, o, e);
      BlocksCons(s[o..e], TablesFrom(s, e));
  }

  /** The next table found is a table block. */
  lemma NextTableBlock(s: string, from: nat, o: nat, e: nat)
    requires from <= |s| && NextTable(s, from) == Some((o, e))
    ensures e <= |s| && IsTableBlock(s[o..e])
  {
    NextTableFinds(s, from, o, e);
    TableBlockSlice(s, o, e - 2);
  }

  /** A table block in front of table blocks. */
  lemma BlocksCons(t: string, rest: seq<string>)
    requires IsTableBlock(t) && forall k :: 0 <= k < |rest| ==> IsTableBlock(rest[k])
    ensures forall k :: 0 <= k < |[t] + rest| ==> IsTableBlock(([t] + rest)[k])
  {
    forall k | 0 <= k < |[t] + rest| ensures IsTableBlock(([t] + rest)[k]) {
      if k > 0 {
        assert ([t] + rest)[k] == rest[k - 1];
      }
    }
  }

  /** The tables are exactly the texts of the leftmost non-overlapping
      table matches. */
  lemma {:induction false} TablesFromScan(s: string, from: nat)
    requires from <= |s|
    ensures TablesFrom(s, from) == Slices(s, from, Scan(TableMatches(s), from))
    decreases |s| - from
  {
    match NextTable(s, from)
    case None =>
      TablesScanNone(s, from);
    case Some((o, e)) =>
      TablesFromScan(s, e);
      TablesScanStep(s, from, o, e);
  }

  /** With no table from `from` on, neither the search nor the scan finds one. */
  lemma TablesScanNone(s: string, from: nat)
    requires from <= |s| && NextTable(s, from).None?
    ensures TablesFrom(s, from) == [] && Slices(s, from, Scan(TableMatches(s), from)) == []
  {
    match Find(s, "{|", from)
    case None =>
      TablesScanEmpty(s, from, |s|);
    case Some(o) =>
      NoCloserNoTable(s, o);
      TablesScanEmpty(s, from, |s|);
  }

  /** The table the search finds first is the scan's first match. */
  lemma TablesScanStep(s: string, from: nat, o: nat, e: nat)
    requires from <= |s| && NextTable(s, from) == Some((o, e))
    requires TablesFrom(s, e) == Slices(s, e, Scan(TableMatches(s), e))
    ensures TablesFrom(s, from) == Slices(s, from, Scan(TableMatches(s), from))
  {
    NextTableSlices(s, from, o, e);
    TablesFromTake(s, from, o, e);
  }

  /** The table the search finds first is the first matched text. */
  lemma NextTableSlices(s: string, from: nat, o: nat, e: nat)
    requires from <= |s| && NextTable(s, from) == Some((o, e))
    ensures Slices(s, from, Scan(TableMatches(s), from)) == [s[o..e]] + Slices(s, e, Scan(TableMatches(s), e))
  {
    NextTableFinds(s, from, o, e);
    TablesScanTake(s, from, o, e - 2);
  }

  /** What the search for the next table found. */
  lemma NextTableFinds(s: string, from: nat, o: nat, e: nat)
    requires from <= |s| && NextTable(s, from) == Some((o, e))
    ensures e >= 2 && Find(s, "{|", from) == Some(o) && Find(s, "|}", o + 2) == Some(e - 2)
  {
  }

  /** A range without a table match that runs to the end leaves nothing. */
  lemma TablesScanEmpty(s: string, from: nat, o: nat)
    requires from <= |s| && o == |s|
    requires forall k :: from <= k < o ==> TableMatches(s)[k].None? || !OccursAt(s, "{|", k)
    ensures Slices(s, from, Scan(TableMatches(s), from)) == []
  {
    var at := TableMatches(s);
    forall k | from <= k < o ensures at[k].None? {
      if OccursAt(s, "{|", k) {
      }
    }
    ScanSkip(at, from, o);
  }

  /** The first table match from `from` is at the first opener `o`, up to
      the first closer `c` after it. */
  lemma TablesScanTake(s: string, from: nat, o: nat, c: nat)
    requires from <= |s| && Find(s, "{|", from) == Some(o) && Find(s, "|}", o + 2) == Some(c)
    ensures c + 2 <= |s|
    ensures Slices(s, from, Scan(TableMatches(s), from)) == [s[o..c + 2]] + Slices(s, c + 2, Scan(TableMatches(s), c + 2))
  {
    var at := TableMatches(s);
    NoOpenerNoTable(s, from, o);
    ScanSkip(at, from, o);
    TableMatchAt(s, o, c);
    SlicesTake(s, at, o);
  }

  /** Before the first opener, no table match starts. */
  lemma NoOpenerNoTable(s: string, from: nat, o: nat)
    requires from <= |s| && Find(s, "{|", from) == Some(o)
    ensures o <= |s| && forall k :: from <= k < o ==> TableMatches(s)[k].None?
  {
    var at := TableMatches(s);
    forall k | from <= k < o ensures at[k].None? {
      assert !OccursAt(s, "{|", k);
    }
  }

  /** An opener at `o` whose first closer is at `c` matches up to `c + 2`. */
  lemma TableMatchAt(s: string, o: nat, c: nat)
    requires o < |s| && OccursAt(s, "{|", o) && Find(s, "|}", o + 2) == Some(c)
    ensures TableMatches(s)[o] == Some(c + 2)
  {
  }

  /** Without a closer after `o`, no table match starts at or after `o`. */
  lemma NoCloserNoTable(s: string, o: nat)
    requires o <= |s|
    requires forall c: nat :: o + 2 <= c ==> !OccursAt(s, "|}", c)
    ensures forall k :: o <= k < |s| ==> TableMatches(s)[k].None?
  {
    forall k | o <= k < |s| ensures TableAt(s, k).None? {
      TableAtSpec(s, k);
      assert forall c: nat :: k + 2 <= c ==> !OccursAt(s, "|}", c);
    }
  }

  function Tables(content: string): (tables: seq<string>)
    ensures forall k :: 0 <= k < |tables| ==> IsTableBlock(tables[k])
  {
    TablesFromBlocks(content, 0);
    TablesFrom(content, 0)
  }

  // ============ rows: split on /\n\|-/

  const RowSeparator: string := "\n|-"

  function Rows(table: string): (rows: seq<string>)
    ensures |rows| >= 1
    ensures Join(rows, RowSeparator) == table
    ensures forall k :: 0 <= k < |rows| ==> !Contains(rows[k], RowSeparator)
  {
    Split(table, RowSeparator)
  }

  /** The last row piece of a table block carries the block's closing `|}`:
      the separator `\n|-` cannot overlap it. */
  lemma {:induction false} LastRowCloses(table: string)
    requires IsTableBlock(table)
    ensures EndsWith(Rows(table)[|Rows(table)| - 1], "|}")
  {
    var n := |table|;
    assert table[n - 2] == '|' && table[n - 1] == '}' by {
      assert table[n - 2..][0] == '|' && table[n - 2..][1] == '}';
    }
    LastPartCloses(Rows(table), table);
  }

  /** The same for any parts whose join on the row separator ends in `|}`. */
  lemma LastPartCloses(rows: seq<string>, table: string)
    requires |rows| >= 1 && Join(rows, RowSeparator) == table && |table| >= 2
    requires table[|table| - 2] == '|' && table[|table| - 1] == '}'
    ensures EndsWith(rows[|rows| - 1], "|}")
  {
    var last := rows[|rows| - 1];
    JoinLastIsSuffix(rows, RowSeparator);
    assert |last| >= 2 by {
      if |rows| >= 2 {
        // The separator cannot cover either of the final two characters.
        JoinSplitLast(rows, RowSeparator);
        var pre := Join(rows[..|rows| - 1], RowSeparator);
        SeparatorThenLast(pre, last, table);
      }
    }
    SuffixOfSuffix(table, last, 2);
  }

  /** A text that ends with the row separator and then fewer than two
      characters does not end with `|}`. */
  lemma SeparatorThenLast(pre: string, last: string, table: string)
    requires table == pre + RowSeparator + last
    requires |table| >= 2 && table[|table| - 2] == '|' && table[|table| - 1] == '}'
    ensures |last| >= 2
  {
    assert table[|pre| + 2] == '-';
  }

  /** Join of a non-empty list, with its last part split off. */
  lemma {:induction false} JoinSplitLast(parts: seq<string>, sep: string)
    requires |parts| >= 2
    ensures Join(parts, sep) == Join(parts[..|parts| - 1], sep) + sep + parts[|parts| - 1]
    decreases |parts|
  {
    if |parts| > 2 {
      JoinSplitLast(parts[1..], sep);
      assert parts[1..][..|parts| - 2] == parts[..|parts| - 1][1..];
      assert Join(parts, sep) == parts[0] + sep + Join(parts[1..], sep);
    }
  }

  // ============ cells: split on /\|\||(?<=\n)\|/

  /** Length of the separator matched at `q`: `||` first, else a `|` whose
      preceding character (looked at in the whole row) is a newline. */
  function SeparatorAt(s: string, q: nat): nat
    requires q < |s|
  {
    if q + 2 <= |s| && s[q] == '|' && s[q + 1] == '|' then 2
    else if s[q] == '|' && q > 0 && s[q - 1] == '\n' then 1
    else 0
  }

  lemma SeparatorCases(s: string, q: nat)
    ensures OccursAt(s, "||", q) ==> SeparatorAt(s, q) == 2
    ensures q > 0 && OccursAt(s, "\n|", q - 1) ==> SeparatorAt(s, q) > 0
  {
    if OccursAt(s, "||", q) {
      assert s[q..q + 2][0] == s[q] && s[q..q + 2][1] == s[q + 1];
    }
    if q > 0 && OccursAt(s, "\n|", q - 1) {
      assert s[q - 1..q + 1][0] == s[q - 1] && s[q - 1..q + 1][1] == s[q];
    }
  }

  /** No piece contains a separator match. */
  predicate SeparatorFree(piece: string) {
    !Contains(piece, "||") && !Contains(piece, "\n|")
  }

  lemma SeparatorFreeSlice(s: string, p: nat, q: nat)
    requires p <= q <= |s|
    requires forall j :: p <= j < q ==> SeparatorAt(s, j) == 0
    ensures SeparatorFree(s[p..q])
  {
    forall j: nat ensures !OccursAt(s[p..q], "||", j) && !OccursAt(s[p..q], "\n|", j) {
      OccursInSlice(s, "||", p, q, j);
      OccursInSlice(s, "\n|", p, q, j);
      SeparatorCases(s, p + j);
      SeparatorCases(s, p + j + 1);
    }
  }

  function PiecesFrom(s: string, p: nat, q: nat): (pieces: seq<string>)
    requires p <= q <= |s|
    requires forall j :: p <= j < q ==> SeparatorAt(s, j) == 0
    ensures |pieces| >= 1
    ensures forall k :: 0 <= k < |pieces| ==> SeparatorFree(pieces[k])
    decreases |s| - q
  {
    if q == |s| then
      SeparatorFreeSlice(s, p, q);
      [s[p..q]]
    else if SeparatorAt(s, q) > 0 then
      SeparatorFreeSlice(s, p, q);
      var e := q + SeparatorAt(s, q);
      [s[p..q]] + PiecesFrom(s, e, e)
    else PiecesFrom(s, p, q + 1)
  }

  /** The separator match at every position. */
  function SepMatches(s: string): (at: seq<Option<nat>>)
    ensures |at| == |s| && Advancing(at)
  {
    seq(|s|, q requires 0 <= q < |s| => if SeparatorAt(s, q) > 0 then Some(q + SeparatorAt(s, q)) else None)
  }

  /** The pieces are exactly what `split` returns: the texts between the
      leftmost non-overlapping separator matches. */
  lemma {:induction false} PiecesFromScan(s: string, p: nat, q: nat)
    requires p <= q <= |s|
    requires forall j :: p <= j < q ==> SeparatorAt(s, j) == 0
    ensures Chain(p, Scan(SepMatches(s), q), |s|)
    ensures PiecesFrom(s, p, q) == Gaps(s, p, Scan(SepMatches(s), q))
    decreases |s| - q
  {
    var at := SepMatches(s);
    ChainEarlier(p, q, Scan(at, q), |s|);
    if q == |s| {
      assert Scan(at, q) == [];
      assert PiecesFrom(s, p, q) == [s[p..q]];
      assert s[p..q] == s[p..];
    } else if SeparatorAt(s, q) > 0 {
      var e := q + SeparatorAt(s, q);
      PiecesFromScan(s, e, e);
      ScanTake(at, q);
      assert PiecesFrom(s, p, q) == [s[p..q]] + PiecesFrom(s, e, e);
      assert Gaps(s, p, Scan(at, q)) == [s[p..q]] + Gaps(s, e, Scan(at, e));
    } else {
      PiecesFromScan(s, p, q + 1);
      assert Scan(at, q) == Scan(at, q + 1);
    }
  }

  /** Putting the separators back between the pieces gives the row back,
      and each separator is `||` or `|`. */
  lemma PiecesRoundTrip(row: string)
    ensures var spans := Scan(SepMatches(row), 0);
      && |PiecesFrom(row, 0, 0)| == |spans| + 1
      && Interleave(PiecesFrom(row, 0, 0), Slices(row, 0, spans)) == row
      && forall m :: m in Slices(row, 0, spans) ==> m == "||" || m == "|"
  {
    var spans := Scan(SepMatches(row), 0);
    PiecesFromScan(row, 0, 0);
    GapsRejoin(row, 0, spans);
    SeparatorSlices(row);
  }

  /** Every separator the scan takes is a double pipe or a pipe. */
  lemma SeparatorSlices(row: string)
    ensures forall m :: m in Slices(row, 0, Scan(SepMatches(row), 0)) ==> m == "||" || m == "|"
  {
    var at := SepMatches(row);
    var spans := Scan(at, 0);
    ScanLeftmost(at, 0);
    forall m | m in Slices(row, 0, spans) ensures m == "||" || m == "|" {
      var k := SliceOf(row, 0, spans, m);
      SeparatorText(row, spans[k].0, spans[k].1);
    }
  }

  /** The text of a separator match is a double pipe or a pipe. */
  lemma SeparatorText(row: string, q: nat, e: nat)
    requires q < |row| && SepMatches(row)[q] == Some(e)
    ensures e <= |row| && (row[q..e] == "||" || row[q..e] == "|")
  {
    if SeparatorAt(row, q) == 2 {
      assert row[q..e] == [row[q], row[q + 1]];
    } else {
      assert row[q..e] == [row[q]];
    }
  }

  function TrimAll(pieces: seq<string>): (r: seq<string>)
    ensures |r| == |pieces|
    ensures forall k :: 0 <= k < |r| ==> r[k] == Trim(pieces[k])
  {
    if pieces == [] then [] else [Trim(pieces[0])] + TrimAll(pieces[1..])
  }

  /** `Boolean` on a string, as `.filter(Boolean)` uses it. */
  predicate NonBlank(x: string) {
    x != ""
  }

  /** The cells of a row: its separator-free pieces, trimmed, empty ones dropped. */
  function Cells(row: string): (cells: seq<string>)
    ensures forall k :: 0 <= k < |cells| ==> cells[k] != "" && IsTrimmed(cells[k])
    ensures forall k :: 0 <= k < |cells| ==> exists piece :: piece in PiecesFrom(row, 0, 0) && cells[k] == Trim(piece)
  {
    var pieces := PiecesFrom(row, 0, 0);
    var trimmed := TrimAll(pieces);
    var cells := Filter(trimmed, NonBlank);
    assert forall k :: 0 <= k < |cells| ==> cells[k] in trimmed;
    cells
  }

  /** The cells are the non-empty trimmed texts between the leftmost
      non-overlapping separator matches, in order. */
  lemma CellsScan(row: string)
    ensures Cells(row) == Filter(TrimAll(Gaps(row, 0, Scan(SepMatches(row), 0))), NonBlank)
  {
    PiecesFromScan(row, 0, 0);
  }

  // ============ bold index: the first match of /'''([^']+)'''/

  predicate NotApostrophe(c: char) {
    c != '\''
  }

  /** A bold span `'''b'''` at `i`, with `b` a non-empty apostrophe-free text. */
  predicate BoldSpanAt(s: string, i: nat, b: string) {
    && b != [] && (forall k :: 0 <= k < |b| ==> b[k] != '\'')
    && OccursAt(s, "'''", i) && OccursAt(s, b, i + 3) && OccursAt(s, "'''", i + 3 + |b|)
  }

  function BoldAt(s: string, i: nat): (r: Option<string>)
    requires i <= |s|
    ensures r.Some? ==> BoldSpanAt(s, i, r.value)
  {
    if OccursAt(s, "'''", i) then
      var n := Run(s, i + 3, NotApostrophe);
      if n >= 1 && OccursAt(s, "'''", i + 3 + n) then Some(s[i + 3..i + 3 + n])
      else None
    else None
  }

  /** Any bold span at `i` is the one `BoldAt` finds: `[^']+` is greedy and
      must be followed by an apostrophe. */
  lemma BoldAtComplete(s: string, i: nat, b: string)
    requires i <= |s| && BoldSpanAt(s, i, b)
    ensures BoldAt(s, i) == Some(b)
  {
    var m := |b|;
    forall k | i + 3 <= k < i + 3 + m ensures NotApostrophe(s[k]) {
      assert s[k] == s[i + 3..i + 3 + m][k - i - 3];
    }
    assert s[i + 3 + m] == s[i + 3 + m..i + 6 + m][0];
    RunExact(s, i + 3, m, NotApostrophe);
  }

  /** The leftmost bold span at or after `i`. */
  function FirstBold(s: string, i: nat): (r: Option<string>)
    requires i <= |s|
    ensures r.Some? ==> exists j :: i <= j <= |s| && BoldSpanAt(s, j, r.value)
    ensures r.None? ==> forall j, b :: i <= j <= |s| ==> !BoldSpanAt(s, j, b)
    decreases |s| - i
  {
    match BoldAt(s, i)
    case Some(b) => Some(b)
    case None =>
      assert forall b :: !BoldSpanAt(s, i, b) by {
        forall b | BoldSpanAt(s, i, b) ensures false {
          BoldAtComplete(s, i, b);
        }
      }
      if i == |s| then None else FirstBold(s, i + 1)
  }

  /** The search returns the span at the leftmost position that has one. */
  lemma {:induction false} FirstBoldLeftmost(s: string, i: nat, j: nat, b: string)
    requires i <= j <= |s| && BoldSpanAt(s, j, b)
    requires forall j', b' :: i <= j' < j ==> !BoldSpanAt(s, j', b')
    ensures FirstBold(s, i) == Some(b)
    decreases j - i
  {
    if i == j {
      BoldAtComplete(s, i, b);
    } else {
      FirstBoldLeftmost(s, i + 1, j, b);
    }
  }

  // ============ digit index: the first match of /\d+[\d\s()]+/

  predicate InDigitClass(c: char) {
    IsDigit(c) || IsSpace(c) || c == '(' || c == ')'
  }

  /** A digit run match at `i`. `\d+` then `[\d\s()]+` covers exactly the
      maximal `[\d\s()]` run from `i`; it matches when that run has two or
      more characters. */
  function DigitRunAt(s: string, i: nat): (r: Option<string>)
    requires i < |s|
    ensures r.Some? <==> IsDigit(s[i]) && i + 1 < |s| && InDigitClass(s[i + 1])
    ensures r.Some? ==> |r.value| >= 2 && IsDigit(r.value[0])
    ensures r.Some? ==> forall k :: 0 <= k < |r.value| ==> InDigitClass(r.value[k])
    ensures r.Some? ==> i + |r.value| <= |s| && r.value == s[i..i + |r.value|]
    ensures r.Some? ==> i + |r.value| == |s| || !InDigitClass(s[i + |r.value|])
  {
    var n := Run(s, i, InDigitClass);
    if IsDigit(s[i]) && n >= 2 then Some(s[i..i + n]) else None
  }

  /** The leftmost digit-run match at or after `i`. It exists exactly when
      some digit is directly followed by a digit, a space or a parenthesis. */
  function FirstDigitRun(s: string, i: nat): (r: Option<string>)
    requires i <= |s|
    ensures r.Some? ==> |r.value| >= 2 && IsDigit(r.value[0])
    ensures r.Some? ==> forall k :: 0 <= k < |r.value| ==> InDigitClass(r.value[k])
    ensures r.None? <==> forall j :: i <= j < |s| - 1 ==> !(IsDigit(s[j]) && InDigitClass(s[j + 1]))
    decreases |s| - i
  {
    if i == |s| then None
    else match DigitRunAt(s, i)
      case Some(d) => Some(d)
      case None => FirstDigitRun(s, i + 1)
  }

  /** The search returns the match at the leftmost position that has one. */
  lemma {:induction false} FirstDigitRunLeftmost(s: string, i: nat, j: nat)
    requires i <= j < |s| && DigitRunAt(s, j).Some?
    requires forall j' :: i <= j' < j ==> DigitRunAt(s, j').None?
    ensures FirstDigitRun(s, i) == DigitRunAt(s, j)
    decreases j - i
  {
    if i < j {
      FirstDigitRunLeftmost(s, i + 1, j);
    }
  }

  /** What the search returns is the match at some position, with no match
      before it. */
  lemma {:induction false} FirstDigitRunFound(s: string, i: nat)
    requires i <= |s| && FirstDigitRun(s, i).Some?
    ensures exists j :: (i <= j < |s| && DigitRunAt(s, j) == FirstDigitRun(s, i)
      && forall j' :: i <= j' < j ==> DigitRunAt(s, j').None?)
    decreases |s| - i
  {
    if DigitRunAt(s, i).None? {
      FirstDigitRunFound(s, i + 1);
      var j :| i + 1 <= j < |s| && DigitRunAt(s, j) == FirstDigitRun(s, i + 1)
        && forall j' :: i + 1 <= j' < j ==> DigitRunAt(s, j').None?;
      assert forall j' :: i <= j' < j ==> DigitRunAt(s, j').None?;
    } else {
      assert DigitRunAt(s, i) == FirstDigitRun(s, i);
    }
  }

  // ============ flags: the trimmed capture of every match of /\{\{[Фф]лаг\|([^}|]+)/g

  predicate FlagArgChar(c: char) {
    c != '}' && c != '|'
  }

  const FlagName: string := "лаг"

  /** `{{Флаг|` or `{{флаг|` at `i`. */
  predicate FlagOpenerAt(s: string, i: nat) {
    && i + 7 <= |s| && s[i..i + 2] == "{{" && (s[i + 2] == 'Ф' || s[i + 2] == 'ф')
    && s[i + 3..i + 6] == FlagName && s[i + 6] == '|'
  }

  /** A flag template at `i`: an opener and a non-empty argument, the
      greedy `[^}|]+` taking every argument character there is. Returns
      the end of its argument. */
  function FlagAt(s: string, i: nat): (r: Option<nat>)
    requires i <= |s|
    ensures r.Some? <==> FlagOpenerAt(s, i) && i + 7 < |s| && FlagArgChar(s[i + 7])
    ensures r.Some? ==> i + 8 <= r.value <= |s|
    ensures r.Some? ==> forall k :: i + 7 <= k < r.value ==> FlagArgChar(s[k])
    ensures r.Some? ==> r.value == |s| || !FlagArgChar(s[r.value])
  {
    if FlagOpenerAt(s, i) then
      var n := Run(s, i + 7, FlagArgChar);
      if n >= 1 then Some(i + 7 + n) else None
    else None
  }

  /** The flag match at every position. */
  function FlagMatches(s: string): (at: seq<Option<nat>>)
    ensures |at| == |s| && Advancing(at)
  {
    seq(|s|, i requires 0 <= i < |s| => FlagAt(s, i))
  }

  /** A trimmed run of flag-argument characters holds no `}` and no `|`. */
  lemma FlagArgClean(s: string, lo: nat, hi: nat)
    requires lo <= hi <= |s|
    requires forall k :: lo <= k < hi ==> FlagArgChar(s[k])
    ensures '}' !in Trim(s[lo..hi]) && '|' !in Trim(s[lo..hi])
  {
    var arg := s[lo..hi];
    assert '}' !in arg && '|' !in arg by {
      forall k | 0 <= k < |arg| ensures FlagArgChar(arg[k]) {
        assert arg[k] == s[lo + k];
      }
    }
    if '}' in Trim(arg) { TrimKeeps(arg, '}'); }
    if '|' in Trim(arg) { TrimKeeps(arg, '|'); }
  }

  /** The trimmed argument of the flag match `span`: the text after
      the opener, up to the end of the match. */
  function FlagText(s: string, span: (nat, nat)): string
    requires span.0 + 7 <= span.1 <= |s|
  {
    Trim(s[span.0 + 7..span.1])
  }

  /** The trimmed arguments of every flag template, left to right. */
  function FlagsFrom(s: string, i: nat): (flags: seq<string>)
    requires i <= |s|
    ensures forall k :: 0 <= k < |flags| ==> IsTrimmed(flags[k])
    ensures forall k :: 0 <= k < |flags| ==> '}' !in flags[k] && '|' !in flags[k]
    decreases |s| - i
  {
    if i == |s| then []
    else match FlagAt(s, i)
      case Some(e) =>
        FlagArgClean(s, i + 7, e);
        [FlagText(s, (i, e))] + FlagsFrom(s, e)
      case None => FlagsFrom(s, i + 1)
  }

  /** `flags` holds the trimmed argument of each flag match in `spans`, in
      the same order. */
  predicate FlagArguments(s: string, spans: seq<(nat, nat)>, flags: seq<string>)
    decreases |spans|
  {
    && |flags| == |spans|
    && (spans != [] ==>
         && spans[0].0 + 7 <= spans[0].1 <= |s| && flags[0] == FlagText(s, spans[0])
         && FlagArguments(s, spans[1..], flags[1..]))
  }

  /** The `k`-th flag is the trimmed argument of the `k`-th match. */
  lemma {:induction false} FlagArgumentAt(s: string, spans: seq<(nat, nat)>, flags: seq<string>, k: nat)
    requires FlagArguments(s, spans, flags) && k < |spans|
    ensures spans[k].0 + 7 <= spans[k].1 <= |s| && flags[k] == FlagText(s, spans[k])
    decreases k
  {
    if k > 0 {
      assert spans[1..][k - 1] == spans[k] && flags[1..][k - 1] == flags[k];
      FlagArgumentAt(s, spans[1..], flags[1..], k - 1);
    }
  }

  /** One trimmed argument per leftmost non-overlapping flag match, in order. */
  lemma {:induction false} FlagsFromScan(s: string, i: nat)
    requires i <= |s|
    ensures FlagArguments(s, Scan(FlagMatches(s), i), FlagsFrom(s, i))
    decreases |s| - i
  {
    var at := FlagMatches(s);
    if i == |s| {
      assert Scan(at, i) == [] && FlagsFrom(s, i) == [];
    } else {
      match FlagAt(s, i)
      case Some(e) =>
        FlagsFromScan(s, e);
        FlagsScanTake(s, i, e);
      case None =>
        FlagsFromScan(s, i + 1);
        assert Scan(at, i) == Scan(at, i + 1) && FlagsFrom(s, i) == FlagsFrom(s, i + 1);
    }
  }

  /** A flag template at `i` is the scan's first match and the first flag. */
  lemma FlagsScanTake(s: string, i: nat, e: nat)
    requires i < |s| && FlagAt(s, i) == Some(e)
    requires FlagArguments(s, Scan(FlagMatches(s), e), FlagsFrom(s, e))
    ensures FlagArguments(s, Scan(FlagMatches(s), i), FlagsFrom(s, i))
  {
    var at := FlagMatches(s);
    assert at[i] == Some(e);
    ScanTake(at, i);
    var flags := FlagsFrom(s, i);
    assert flags == [FlagText(s, (i, e))] + FlagsFrom(s, e);
    assert flags[1..] == FlagsFrom(s, e);
  }

  // ============ links: every match of /\[\[([^|\]]+)(?:\|[^\]]+)?\]\]/g

  predicate LinkTargetChar(c: char) {
    c != '|' && c != ']'
  }

  predicate LinkTextChar(c: char) {
    c != ']'
  }

  /** A link at `i`: `[[`, a maximal target run, then either `]]` or `|`, a
      maximal display run and `]]`. Returns where the match ends. Shorter
      runs cannot succeed, since the character after a shortened run could
      neither start `|` nor `]]`. */
  function LinkAt(s: string, i: nat): (r: Option<nat>)
    requires i <= |s|
    ensures r.Some? ==> i + 5 <= r.value <= |s|
    ensures r.Some? ==> OccursAt(s, "[[", i) && OccursAt(s, "]]", r.value - 2)
  {
    if OccursAt(s, "[[", i) then
      var a := Run(s, i + 2, LinkTargetChar);
      var j := i + 2 + a;
      if a == 0 then None
      else if j < |s| && s[j] == '|' then PipedEnd(s, j)
      else if OccursAt(s, "]]", j) then Some(j + 2)
      else None
    else None
  }

  /** After the `|` at `j`: a maximal non-empty display run and `]]`.
      Returns where the match ends. */
  function PipedEnd(s: string, j: nat): (r: Option<nat>)
    requires j < |s|
    ensures r.Some? ==> j + 4 <= r.value <= |s| && OccursAt(s, "]]", r.value - 2)
  {
    var b := Run(s, j + 1, LinkTextChar);
    var k := j + 1 + b;
    if b >= 1 && OccursAt(s, "]]", k) then Some(k + 2) else None
  }

  /** A link match from `i` to `e`: `[[`, a non-empty target up to `j`
      free of `|` and `]`, then `]]` directly (`j == e - 2`) or a `|` and a
      non-empty display text free of `]` before it. */
  predicate LinkForm(s: string, i: nat, j: nat, e: nat) {
    && i + 2 < j <= e - 2 && e <= |s| && OccursAt(s, "[[", i) && OccursAt(s, "]]", e - 2)
    && (forall k :: i + 2 <= k < j ==> LinkTargetChar(s[k]))
    && (j == e - 2 || (s[j] == '|' && j + 1 < e - 2 && forall k :: j < k < e - 2 ==> LinkTextChar(s[k])))
  }

  /** What `LinkAt` finds has the link form. */
  lemma LinkAtSound(s: string, i: nat)
    requires i <= |s| && LinkAt(s, i).Some?
    ensures exists j :: LinkForm(s, i, j, LinkAt(s, i).value)
  {
    var j := i + 2 + Run(s, i + 2, LinkTargetChar);
    var e := LinkAt(s, i).value;
    if j < |s| && s[j] == '|' {
      assert s[e - 2] == s[e - 2..e][0];
      assert LinkForm(s, i, j, e);
    } else {
      assert LinkForm(s, i, j, e);
    }
  }

  /** Every text of the link form at `i` is the match `LinkAt` finds. */
  lemma LinkAtComplete(s: string, i: nat, j: nat, e: nat)
    requires LinkForm(s, i, j, e)
    ensures LinkAt(s, i) == Some(e)
  {
    var n := j - i - 2;
    assert i + 2 + n == j;
    if j == e - 2 {
      assert s[j] == s[e - 2..e][0];
      assert !LinkTargetChar(s[i + 2 + n]);
      RunExact(s, i + 2, n, LinkTargetChar);
      LinkAtPlain(s, i, j);
    } else {
      assert !LinkTargetChar(s[i + 2 + n]);
      RunExact(s, i + 2, n, LinkTargetChar);
      var m := e - 3 - j;
      assert j + 1 + m == e - 2 && s[e - 2] == s[e - 2..e][0];
      assert !LinkTextChar(s[j + 1 + m]);
      RunExact(s, j + 1, m, LinkTextChar);
      LinkAtPiped(s, i, j, e);
    }
  }

  /** A target run closed by `]]` right away is a link match. */
  lemma LinkAtPlain(s: string, i: nat, j: nat)
    requires i + 2 < j && j + 2 <= |s| && OccursAt(s, "[[", i) && OccursAt(s, "]]", j)
    requires Run(s, i + 2, LinkTargetChar) == j - i - 2 && s[j] == ']'
    ensures LinkAt(s, i) == Some(j + 2)
  {
  }

  /** A target run, a `|` and a display run closed by `]]` is a link match. */
  lemma LinkAtPiped(s: string, i: nat, j: nat, e: nat)
    requires i + 2 < j && j + 1 < e - 2 && e <= |s| && OccursAt(s, "[[", i) && OccursAt(s, "]]", e - 2)
    requires Run(s, i + 2, LinkTargetChar) == j - i - 2 && s[j] == '|'
    requires Run(s, j + 1, LinkTextChar) == e - 3 - j
    ensures LinkAt(s, i) == Some(e)
  {
    PipedEndExact(s, j, e);
    assert i + 2 + Run(s, i + 2, LinkTargetChar) == j;
  }

  /** A display run closed by `]]` ends the piped part there. */
  lemma PipedEndExact(s: string, j: nat, e: nat)
    requires j + 1 < e - 2 && e <= |s| && OccursAt(s, "]]", e - 2)
    requires Run(s, j + 1, LinkTextChar) == e - 3 - j
    ensures PipedEnd(s, j) == Some(e)
  {
    assert j + 1 + (e - 3 - j) == e - 2;
  }

  /** The link match at every position. */
  function LinkMatches(s: string): (at: seq<Option<nat>>)
    ensures |at| == |s| && Advancing(at)
  {
    seq(|s|, i requires 0 <= i < |s| => LinkAt(s, i))
  }

  /** A slice that opens with `[[` and closes with `]]` starts and ends with them. */
  lemma Bracketed(s: string, i: nat, e: nat)
    requires i + 4 <= e <= |s| && OccursAt(s, "[[", i) && OccursAt(s, "]]", e - 2)
    ensures StartsWith(s[i..e], "[[") && EndsWith(s[i..e], "]]")
  {
    assert s[i..e][..2] == s[i..i + 2];
    assert s[i..e][e - i - 2..] == s[e - 2..e];
  }

  /** The text of every link match, left to right. */
  function LinksFrom(s: string, i: nat): (links: seq<string>)
    requires i <= |s|
    ensures forall k :: 0 <= k < |links| ==> StartsWith(links[k], "[[") && EndsWith(links[k], "]]")
    decreases |s| - i
  {
    if i == |s| then []
    else match LinkAt(s, i)
      case Some(e) =>
        Bracketed(s, i, e);
        [s[i..e]] + LinksFrom(s, e)
      case None => LinksFrom(s, i + 1)
  }

  /** The links are exactly the texts of the leftmost non-overlapping
      link matches. */
  lemma {:induction false} LinksFromScan(s: string, i: nat)
    requires i <= |s|
    ensures LinksFrom(s, i) == Slices(s, i, Scan(LinkMatches(s), i))
    decreases |s| - i
  {
    if i < |s| {
      match LinkAt(s, i)
      case Some(e) =>
        LinksFromScan(s, e);
      case None =>
        LinksFromScan(s, i + 1);
    }
  }

  /** `l.replace(/[\[\]]/g, "")`. */
  function RemoveBrackets(s: string): (r: string)
    ensures forall c :: c in r <==> c in s && c != '[' && c != ']'
  {
    if s == [] then []
    else if s[0] == '[' || s[0] == ']' then RemoveBrackets(s[1..])
    else [s[0]] + RemoveBrackets(s[1..])
  }

  predicate NotBracket(c: char) {
    c != '[' && c != ']'
  }

  /** Removing the brackets keeps every other character, in order. */
  lemma {:induction false} RemoveBracketsFilter(s: string)
    ensures RemoveBrackets(s) == Filter(s, NotBracket)
    decreases |s|
  {
    if s != [] {
      RemoveBracketsFilter(s[1..]);
    }
  }

  /** `s.split("|").pop()`: the text after the last `|`, or all of `s`. */
  function AfterLastPipe(s: string): (r: string)
    ensures '|' !in r
    ensures EndsWith(s, r)
    ensures forall c :: c in r ==> c in s
    ensures r == s || s[|s| - |r| - 1] == '|'
  {
    if '|' !in s then s
    else if s[|s| - 1] == '|' then []
    else
      var r := AfterLastPipe(s[..|s| - 1]);
      assert s[..|s| - 1] + [s[|s| - 1]] == s;
      r + [s[|s| - 1]]
  }

  /** The text after the last `|` is the `|`-free tail that follows either
      nothing or a `|`. */
  lemma {:induction false} AfterLastPipeOf(pre: string, tail: string)
    requires '|' !in tail && (pre == [] || pre[|pre| - 1] == '|')
    ensures AfterLastPipe(pre + tail) == tail
    decreases |tail|
  {
    var s := pre + tail;
    if tail == [] {
      assert s == pre;
      if pre != [] {
        assert s[|s| - 1] == '|';
      }
    } else {
      assert s[|s| - 1] == tail[|tail| - 1];
      var init := tail[..|tail| - 1];
      assert '|' in s ==> pre != [] by {
        if pre == [] {
          assert s == tail;
        }
      }
      AfterLastPipeOf(pre, init);
      assert s[..|s| - 1] == pre + init;
      assert init + [tail[|tail| - 1]] == tail;
      if '|' !in s {
        assert pre == [];
        assert s == tail;
      }
    }
  }

  /** A link's name: the trimmed text after the last pipe, brackets removed. */
  function LinkName(link: string): (n: string)
    ensures IsTrimmed(n)
    ensures '|' !in n && '[' !in n && ']' !in n
  {
    var plain := AfterLastPipe(RemoveBrackets(link));
    var n := Trim(plain);
    assert '|' !in n && '[' !in n && ']' !in n by {
      if '|' in n { TrimKeeps(plain, '|'); }
      if '[' in n { TrimKeeps(plain, '['); }
      if ']' in n { TrimKeeps(plain, ']'); }
    }
    n
  }

  /** The name of a link is the trimmed `|`-free tail of its bracket-free
      text that follows either nothing or a `|`. */
  lemma LinkNameOf(link: string, pre: string, tail: string)
    requires RemoveBrackets(link) == pre + tail
    requires '|' !in tail && (pre == [] || pre[|pre| - 1] == '|')
    ensures LinkName(link) == Trim(tail)
  {
    AfterLastPipeOf(pre, tail);
  }
}
