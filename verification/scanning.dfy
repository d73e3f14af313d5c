/** Global regular-expression scanning. `match` with the `g` flag,
    `matchAll`, and `split` with a pattern all step through the leftmost
    non-overlapping matches of a pattern: search from the current position
    for the leftmost match, take it, and resume the search where it ends.
    Here a pattern is given by the match it makes at each position of the
    text. */
module Scanning {
  import opened Wrappers

  /** `at[j]` is where the match the pattern makes at position `j` ends, or
      `None` when no match starts there. Every match is non-empty and ends
      inside the text, whose length is `|at|`. */
  predicate Advancing(at: seq<Option<nat>>) {
    forall j :: 0 <= j < |at| && at[j].Some? ==> j < at[j].value <= |at|
  }

  /** Where the `k`-th stretch of unmatched text begins: at `i` before the
      first match, else where the previous match ends. */
  function GapStart(i: nat, spans: seq<(nat, nat)>, k: nat): nat {
    if 0 < k <= |spans| then spans[k - 1].1 else i
  }

  /** Where the `k`-th stretch of unmatched text ends: where the `k`-th match
      starts, or at the end `n` of the text after the last match. */
  function GapEnd(n: nat, spans: seq<(nat, nat)>, k: nat): nat {
    if k < |spans| then spans[k].0 else n
  }

  /** `spans` are the leftmost non-overlapping matches from `i` on, as
      (start, end) pairs: each is a match, they come in order without
      overlapping, and no match starts in the text between them. */
  predicate Leftmost(at: seq<Option<nat>>, i: nat, spans: seq<(nat, nat)>) {
    && (forall k :: 0 <= k < |spans| ==> i <= spans[k].0 < |at| && at[spans[k].0] == Some(spans[k].1))
    && (forall k :: 0 <= k < |spans| - 1 ==> spans[k].1 <= spans[k + 1].0)
    && (forall k, j :: 0 <= k <= |spans| && GapStart(i, spans, k) <= j < GapEnd(|at|, spans, k) ==> at[j].None?)
  }

  /** The spans lie in order between `i` and `n`, each one after the
      previous one's end. */
  predicate Chain(i: nat, spans: seq<(nat, nat)>, n: nat)
    decreases |spans|
  {
    && i <= n
    && (spans != [] ==> i <= spans[0].0 <= spans[0].1 <= n && Chain(spans[0].1, spans[1..], n))
  }

  /** The scan from `i`: where nothing matches, move one position on. */
  function Scan(at: seq<Option<nat>>, i: nat): (spans: seq<(nat, nat)>)
    requires Advancing(at) && i <= |at|
    ensures Chain(i, spans, |at|)
    decreases |at| - i
  {
    if i == |at| then []
    else match at[i]
      case None => Scan(at, i + 1)
      case Some(e) => [(i, e)] + Scan(at, e)
  }

  /** The scan finds the leftmost non-overlapping matches. */
  lemma {:induction false} ScanLeftmost(at: seq<Option<nat>>, i: nat)
    requires Advancing(at) && i <= |at|
    ensures Leftmost(at, i, Scan(at, i))
    decreases |at| - i
  {
    if i < |at| {
      match at[i]
      case None =>
        ScanLeftmost(at, i + 1);
        LeftmostSkip(at, i, Scan(at, i + 1));
      case Some(e) =>
        ScanLeftmost(at, e);
        LeftmostTake(at, i, e, Scan(at, e));
    }
  }

  /** A position where nothing matches joins the first gap. */
  lemma LeftmostSkip(at: seq<Option<nat>>, i: nat, spans: seq<(nat, nat)>)
    requires i < |at| && at[i].None? && Leftmost(at, i + 1, spans)
    ensures Leftmost(at, i, spans)
  {
    forall k, j | 0 <= k <= |spans| && GapStart(i, spans, k) <= j < GapEnd(|at|, spans, k)
      ensures at[j].None?
    {
      if k == 0 && j > i {
        assert GapStart(i + 1, spans, 0) <= j;
      } else if k > 0 {
        assert GapStart(i + 1, spans, k) == GapStart(i, spans, k);
      }
    }
  }

  /** A match at `i` comes first, before the matches from its end on. */
  lemma LeftmostTake(at: seq<Option<nat>>, i: nat, e: nat, spans: seq<(nat, nat)>)
    requires Advancing(at) && i < |at| && at[i] == Some(e) && Leftmost(at, e, spans)
    ensures Leftmost(at, i, [(i, e)] + spans)
  {
    var all := [(i, e)] + spans;
    forall k | 0 <= k < |all| ensures i <= all[k].0 < |at| && at[all[k].0] == Some(all[k].1) {
      if k > 0 {
        assert all[k] == spans[k - 1];
      }
    }
    forall k | 0 <= k < |all| - 1 ensures all[k].1 <= all[k + 1].0 {
      if k > 0 {
        assert all[k] == spans[k - 1] && all[k + 1] == spans[k];
      }
    }
    forall k, j | 0 <= k <= |all| && GapStart(i, all, k) <= j < GapEnd(|at|, all, k)
      ensures at[j].None?
    {
      if k > 0 {
        assert GapStart(i, all, k) == GapStart(e, spans, k - 1);
        assert GapEnd(|at|, all, k) == GapEnd(|at|, spans, k - 1);
      }
    }
  }

  /** Positions where nothing matches change nothing: the scan from `i`
      is the scan from the next position that has a match. */
  lemma {:induction false} ScanSkip(at: seq<Option<nat>>, i: nat, j: nat)
    requires Advancing(at) && i <= j <= |at|
    requires forall k :: i <= k < j ==> at[k].None?
    ensures Scan(at, i) == Scan(at, j)
    decreases j - i
  {
    if i < j {
      ScanSkip(at, i + 1, j);
    }
  }

  /** The leftmost matches are unique: `Leftmost` pins the scan down. */
  lemma {:induction false} LeftmostUnique(at: seq<Option<nat>>, i: nat, spans: seq<(nat, nat)>)
    requires Advancing(at) && i <= |at| && Leftmost(at, i, spans)
    ensures spans == Scan(at, i)
    decreases |at| - i
  {
    var first := GapEnd(|at|, spans, 0);
    assert forall j :: i <= j < first ==> at[j].None? by {
      forall j | i <= j < first ensures at[j].None? {
        assert GapStart(i, spans, 0) <= j < GapEnd(|at|, spans, 0);
      }
    }
    ScanSkip(at, i, first);
    if spans != [] {
      LeftmostRest(at, i, spans);
      LeftmostUnique(at, spans[0].1, spans[1..]);
      assert spans == [(first, spans[0].1)] + spans[1..];
    }
  }

  /** After the first match, the rest are the leftmost matches from its end. */
  lemma LeftmostRest(at: seq<Option<nat>>, i: nat, spans: seq<(nat, nat)>)
    requires Advancing(at) && Leftmost(at, i, spans) && spans != []
    ensures Leftmost(at, spans[0].1, spans[1..])
  {
    var e := spans[0].1;
    var rest := spans[1..];
    forall k | 0 <= k < |rest| ensures e <= rest[k].0 < |at| && at[rest[k].0] == Some(rest[k].1) {
      assert rest[k] == spans[k + 1];
      MatchesAfter(at, i, spans, k + 1);
    }
    forall k | 0 <= k < |rest| - 1 ensures rest[k].1 <= rest[k + 1].0 {
      assert rest[k] == spans[k + 1] && rest[k + 1] == spans[k + 2];
    }
    forall k, j | 0 <= k <= |rest| && GapStart(e, rest, k) <= j < GapEnd(|at|, rest, k)
      ensures at[j].None?
    {
      assert GapStart(e, rest, k) == GapStart(i, spans, k + 1);
      assert GapEnd(|at|, rest, k) == GapEnd(|at|, spans, k + 1);
    }
  }

  /** Every match after the first starts at or after the first one's end. */
  lemma {:induction false} MatchesAfter(at: seq<Option<nat>>, i: nat, spans: seq<(nat, nat)>, k: nat)
    requires Advancing(at) && Leftmost(at, i, spans) && 0 < k < |spans|
    ensures spans[0].1 <= spans[k].0
    decreases k
  {
    if k > 1 {
      MatchesAfter(at, i, spans, k - 1);
      assert spans[k - 1].0 < at[spans[k - 1].0].value;
    }
  }

  /** A chain from `q` is a chain from any earlier `p`. */
  lemma ChainEarlier(p: nat, q: nat, spans: seq<(nat, nat)>, n: nat)
    requires p <= q && Chain(q, spans, n)
    ensures Chain(p, spans, n)
  {
  }

  /** The matched texts, in order. */
  function Slices<T>(s: seq<T>, i: nat, spans: seq<(nat, nat)>): (matched: seq<seq<T>>)
    requires Chain(i, spans, |s|)
    ensures |matched| == |spans|
    decreases |spans|
  {
    if spans == [] then [] else [s[spans[0].0..spans[0].1]] + Slices(s, spans[0].1, spans[1..])
  }

  /** The unmatched texts: before the first match, between two matches, and
      after the last; one more than there are matches. This is what `split`
      with a pattern returns. */
  function Gaps<T>(s: seq<T>, i: nat, spans: seq<(nat, nat)>): (gaps: seq<seq<T>>)
    requires Chain(i, spans, |s|)
    ensures |gaps| == |spans| + 1
    decreases |spans|
  {
    if spans == [] then [s[i..]] else [s[i..spans[0].0]] + Gaps(s, spans[0].1, spans[1..])
  }

  /** The gaps and the matched texts, taken in turn. */
  function Interleave<T>(gaps: seq<seq<T>>, matched: seq<seq<T>>): seq<T>
    requires |gaps| == |matched| + 1
    decreases |matched|
  {
    if matched == [] then gaps[0] else gaps[0] + matched[0] + Interleave(gaps[1..], matched[1..])
  }

  /** Putting the matched texts back between the gaps gives the text back. */
  lemma {:induction false} GapsRejoin<T>(s: seq<T>, i: nat, spans: seq<(nat, nat)>)
    requires Chain(i, spans, |s|)
    ensures Interleave(Gaps(s, i, spans), Slices(s, i, spans)) == s[i..]
    decreases |spans|
  {
    if spans != [] {
      var a := spans[0].0;
      var b := spans[0].1;
      GapsRejoin(s, b, spans[1..]);
      assert s[i..a] + s[a..b] + s[b..] == s[i..];
    }
  }

  /** Each matched text is the text of one of the spans. */
  lemma {:induction false} SliceOf<T>(s: seq<T>, i: nat, spans: seq<(nat, nat)>, m: seq<T>) returns (k: nat)
    requires Chain(i, spans, |s|) && m in Slices(s, i, spans)
    ensures k < |spans| && spans[k].0 <= spans[k].1 <= |s| && m == s[spans[k].0..spans[k].1]
    decreases |spans|
  {
    if m == s[spans[0].0..spans[0].1] {
      k := 0;
    } else {
      var k' := SliceOf(s, spans[0].1, spans[1..], m);
      k := k' + 1;
    }
  }

  /** A match at `i` is taken, and the scan resumes at its end. */
  lemma ScanTake(at: seq<Option<nat>>, i: nat)
    requires Advancing(at) && i < |at| && at[i].Some?
    ensures Scan(at, i) == [(i, at[i].value)] + Scan(at, at[i].value)
    ensures Scan(at, i)[0] == (i, at[i].value) && Scan(at, i)[1..] == Scan(at, at[i].value)
  {
  }

  /** The text of a match at `i` comes first among the matched texts. */
  lemma SlicesTake<T>(s: seq<T>, at: seq<Option<nat>>, i: nat)
    requires Advancing(at) && |at| == |s| && i < |at| && at[i].Some?
    ensures Slices(s, i, Scan(at, i)) == [s[i..at[i].value]] + Slices(s, at[i].value, Scan(at, at[i].value))
  {
    ScanTake(at, i);
  }
}
