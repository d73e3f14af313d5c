/** The JavaScript string operations the parser and the translator rely on:
    `trim`, `split` on a literal or on a character class, `join`,
    `includes`, `startsWith`, first-occurrence deduplication (`new Set`,
    and an `includes` guard before `push`) and `toLowerCase`. */
module Text {
  import opened Wrappers

  /** The characters JavaScript's `\s` matches; `String.prototype.trim`
      strips exactly this set (white space and line terminators). */
  predicate IsSpace(c: char) {
    || c == ' ' || c == '\t' || c == '\n' || c == '\U{000B}' || c == '\U{000C}' || c == '\r'
    || c == '\U{00A0}' || c == '\U{1680}' || ('\U{2000}' <= c <= '\U{200A}')
    || c == '\U{2028}' || c == '\U{2029}' || c == '\U{202F}' || c == '\U{205F}' || c == '\U{3000}'
    || c == '\U{FEFF}'
  }

  /** The characters `.` does not match and after which `^` matches under the `m` flag. */
  predicate IsLineTerminator(c: char) {
    c == '\n' || c == '\r' || c == '\U{2028}' || c == '\U{2029}'
  }

  /** JavaScript's `\d`: ASCII digits only. */
  predicate IsDigit(c: char) {
    '0' <= c <= '9'
  }

  /** Length of the longest run of characters satisfying `p` that starts at `i`:
      what a greedy `[...]*` consumes. */
  function Run(s: string, i: nat, p: char -> bool): (n: nat)
    requires i <= |s|
    ensures i + n <= |s|
    ensures forall k :: i <= k < i + n ==> p(s[k])
    ensures i + n == |s| || !p(s[i + n])
    decreases |s| - i
  {
    if i < |s| && p(s[i]) then 1 + Run(s, i + 1, p) else 0
  }

  /** A character put in front shifts every run by one. */
  lemma {:induction false} RunCons(c: char, s: string, i: nat, p: char -> bool)
    requires i <= |s|
    ensures Run([c] + s, i + 1, p) == Run(s, i, p)
    decreases |s| - i
  {
    if i < |s| {
      assert ([c] + s)[i + 1] == s[i];
      RunCons(c, s, i + 1, p);
    }
  }

  /** A run is determined by where it stops. */
  lemma RunExact(s: string, i: nat, n: nat, p: char -> bool)
    requires i + n <= |s|
    requires forall k :: i <= k < i + n ==> p(s[k])
    requires i + n == |s| || !p(s[i + n])
    ensures Run(s, i, p) == n
  {
  }

  // ---------------------------------------------------------------- trim

  predicate IsTrimmed(s: string) {
    s == [] || (!IsSpace(s[0]) && !IsSpace(s[|s| - 1]))
  }

  /** Where the run of spaces that ends at `hi` begins, not going below `lo`. */
  function TrailingStart(s: string, lo: nat, hi: nat): (e: nat)
    requires lo <= hi <= |s|
    ensures lo <= e <= hi
    ensures forall k :: e <= k < hi ==> IsSpace(s[k])
    ensures e == lo || !IsSpace(s[e - 1])
    decreases hi
  {
    if lo < hi && IsSpace(s[hi - 1]) then TrailingStart(s, lo, hi - 1) else hi
  }

  /** A character put in front shifts the trailing run by one. */
  lemma {:induction false} TrailingCons(c: char, s: string, lo: nat, hi: nat)
    requires lo <= hi <= |s|
    ensures TrailingStart([c] + s, lo + 1, hi + 1) == TrailingStart(s, lo, hi) + 1
    decreases hi
  {
    if lo < hi {
      assert ([c] + s)[hi] == s[hi - 1];
      TrailingCons(c, s, lo, hi - 1);
    }
  }

  /** How many leading spaces `trim` removes. */
  function Lead(s: string): nat {
    Run(s, 0, IsSpace)
  }

  /** `String.prototype.trim`: the slice of `s` left once the leading and
      trailing spaces are removed. */
  function Trim(s: string): (r: string)
    ensures IsTrimmed(r) && |r| <= |s|
  {
    var a := Lead(s);
    var e := TrailingStart(s, a, |s|);
    assert a == |s| || !IsSpace(s[a]);
    s[a..e]
  }

  /** The trim is the slice of `s` that is left once the leading and the
      trailing spaces are removed. */
  lemma TrimSpec(s: string)
    ensures Lead(s) + |Trim(s)| <= |s| && Trim(s) == s[Lead(s)..Lead(s) + |Trim(s)|]
    ensures forall i :: 0 <= i < Lead(s) ==> IsSpace(s[i])
    ensures forall i :: Lead(s) + |Trim(s)| <= i < |s| ==> IsSpace(s[i])
  {
  }

  /** Trimming only removes spaces: every character kept was in the input. */
  lemma TrimKeeps(s: string, c: char)
    requires c in Trim(s)
    ensures c in s
  {
    var r := Trim(s);
    TrimSpec(s);
    var k :| 0 <= k < |r| && r[k] == c;
    assert s[Lead(s) + k] == c;
  }

  /** A string that neither starts nor ends with a space is its own trim. */
  lemma TrimOfTrimmed(s: string)
    requires IsTrimmed(s)
    ensures Trim(s) == s
  {
    assert Lead(s) == 0;
    assert TrailingStart(s, 0, |s|) == |s|;
    assert s[0..|s|] == s;
  }

  /** A suffix made of non-space characters survives trimming. */
  lemma TrimKeepsSuffix(s: string, t: string)
    requires EndsWith(s, t) && t != []
    requires forall k :: 0 <= k < |t| ==> !IsSpace(t[k])
    ensures EndsWith(Trim(s), t)
  {
    var n := |s|;
    var a := Lead(s);
    assert a <= n - |t| by {
      assert s[n - |t|] == t[0];
    }
    assert s[n - 1] == t[|t| - 1];
    assert TrailingStart(s, a, n) == n;
    assert Trim(s)[|Trim(s)| - |t|..] == s[n - |t|..];
  }

  /** A string that starts with a non-space keeps its first character. */
  lemma TrimFirst(s: string)
    requires s != [] && !IsSpace(s[0])
    ensures Trim(s) != [] && Trim(s)[0] == s[0]
  {
    assert Lead(s) == 0;
  }

  /** Trimming is idempotent. */
  lemma TrimIdempotent(s: string)
    ensures Trim(Trim(s)) == Trim(s)
  {
    TrimOfTrimmed(Trim(s));
  }

  /** A leading space adds one to the leading run. */
  lemma LeadCons(c: char, s: string)
    requires IsSpace(c)
    ensures Lead([c] + s) == Lead(s) + 1
  {
    RunCons(c, s, 0, IsSpace);
  }

  /** The trim is fixed by the bounds of the slice it keeps. */
  lemma TrimBounds(s: string, a: nat, e: nat)
    requires a == Lead(s) && a <= |s| && e == TrailingStart(s, a, |s|)
    ensures Trim(s) == s[a..e]
  {
  }

  /** Leading spaces do not change the trim. */
  lemma TrimLeadingSpace(c: char, s: string)
    requires IsSpace(c)
    ensures Trim([c] + s) == Trim(s)
  {
    var a := Lead(s);
    var e := TrailingStart(s, a, |s|);
    assert Trim([c] + s) == ([c] + s)[a + 1..e + 1] by {
      LeadCons(c, s);
      TrailingCons(c, s, a, |s|);
      TrimBounds([c] + s, a + 1, e + 1);
    }
    assert Trim(s) == s[a..e] by {
      TrimBounds(s, a, e);
    }
    SliceCons(c, s, a, e);
  }

  /** The trim is empty exactly when the string is all spaces. */
  lemma TrimEmpty(s: string)
    ensures Trim(s) == [] <==> forall i :: 0 <= i < |s| ==> IsSpace(s[i])
  {
    var a := Lead(s);
    assert a == |s| || !IsSpace(s[a]);
  }

  // ---------------------------------------------------------------- search

  predicate StartsWith(s: string, prefix: string) {
    |prefix| <= |s| && s[..|prefix|] == prefix
  }

  predicate EndsWith(s: string, suffix: string) {
    |suffix| <= |s| && s[|s| - |suffix|..] == suffix
  }

  /** `d` occurs in `s` starting at position `j`. */
  predicate OccursAt(s: string, d: string, j: nat) {
    j + |d| <= |s| && s[j..j + |d|] == d
  }

  /** `String.prototype.includes`. */
  predicate Contains(s: string, d: string) {
    exists j: nat | j <= |s| :: OccursAt(s, d, j)
  }

  /** An occurrence inside a slice is an occurrence in the whole string. */
  lemma OccursInSlice(s: string, d: string, lo: nat, hi: nat, j: nat)
    requires lo <= hi <= |s|
    ensures OccursAt(s[lo..hi], d, j) <==> (lo + j + |d| <= hi && OccursAt(s, d, lo + j))
  {
    if lo + j + |d| <= hi {
      var t := s[lo..hi];
      var x, y := t[j..j + |d|], s[lo + j..lo + j + |d|];
      forall k | 0 <= k < |d| ensures x[k] == y[k] {
        assert t[j + k] == s[lo + j + k];
      }
      assert x == y;
    }
  }

  /** The end of a suffix is the end of the whole string. */
  lemma SuffixOfSuffix(s: string, t: string, k: nat)
    requires EndsWith(s, t) && k <= |t|
    ensures t[|t| - k..] == s[|s| - k..]
  {
    var a, b := t[|t| - k..], s[|s| - k..];
    forall j | 0 <= j < k ensures a[j] == b[j] {
      assert t[|t| - k + j] == s[|s| - |t|..][|t| - k + j];
    }
    SameElements(a, b);
  }

  /** A string ending with `d` contains `d`. */
  lemma EndsWithContains(s: string, d: string)
    requires EndsWith(s, d)
    ensures Contains(s, d)
  {
    assert OccursAt(s, d, |s| - |d|);
  }

  /** The leftmost occurrence of `d` at or after `from`, as a regex search
      for a literal finds it. */
  function Find(s: string, d: string, from: nat): (r: Option<nat>)
    requires |d| > 0
    ensures r.Some? ==> from <= r.value && OccursAt(s, d, r.value)
    ensures r.Some? ==> forall j: nat :: from <= j < r.value ==> !OccursAt(s, d, j)
    ensures r.None? ==> forall j: nat :: from <= j ==> !OccursAt(s, d, j)
    decreases |s| - from
  {
    if from + |d| > |s| then None
    else if s[from..from + |d|] == d then Some(from)
    else Find(s, d, from + 1)
  }

  // ---------------------------------------------------------------- join and split

  /** `Array.prototype.join`. */
  function Join(parts: seq<string>, sep: string): (r: string)
    ensures |parts| >= 1 ==> StartsWith(r, parts[0])
  {
    if |parts| == 0 then ""
    else if |parts| == 1 then parts[0]
    else parts[0] + sep + Join(parts[1..], sep)
  }

  /** `String.prototype.split` with a literal separator (or a regex that
      matches only that literal): cut at every leftmost, non-overlapping
      occurrence. Joining the pieces back gives the input, and no piece
      contains the separator. */
  function Split(s: string, d: string): (parts: seq<string>)
    requires |d| > 0
    ensures |parts| >= 1
    ensures Join(parts, d) == s
    ensures forall k :: 0 <= k < |parts| ==> !Contains(parts[k], d)
    decreases |s|
  {
    match Find(s, d, 0)
    case None =>
      assert forall j: nat :: !OccursAt(s, d, j);
      [s]
    case Some(i) =>
      var head := s[..i];
      var rest := Split(s[i + |d|..], d);
      assert !Contains(head, d) by {
        forall j: nat ensures !OccursAt(head, d, j) {
          OccursInSlice(s, d, 0, i, j);
        }
      }
      assert s == head + d + s[i + |d|..];
      [head] + rest
  }

  /** The last piece of a split is a suffix of the input. */
  lemma JoinLastIsSuffix(parts: seq<string>, sep: string)
    requires |parts| >= 1
    ensures EndsWith(Join(parts, sep), parts[|parts| - 1])
    decreases |parts|
  {
    if |parts| > 1 {
      JoinLastIsSuffix(parts[1..], sep);
      var j := Join(parts[1..], sep);
      assert Join(parts, sep) == (parts[0] + sep) + j;
    }
  }

  /** Number of characters of `s` that belong to `seps`. */
  function Count(s: string, seps: set<char>): nat {
    if s == [] then 0 else (if s[0] in seps then 1 else 0) + Count(s[1..], seps)
  }

  predicate Avoids(s: string, seps: set<char>) {
    forall k :: 0 <= k < |s| ==> s[k] !in seps
  }

  /** `String.prototype.split` on a one-character class such as `/[:\/]/`
      (or on a one-character literal such as `";"`): one more piece than
      there are separator characters, and no piece holds a separator. */
  function SplitOn(s: string, seps: set<char>): (parts: seq<string>)
    ensures |parts| == Count(s, seps) + 1
    ensures forall k :: 0 <= k < |parts| ==> Avoids(parts[k], seps)
  {
    if s == [] then [""]
    else
      var rest := SplitOn(s[1..], seps);
      if s[0] in seps then [""] + rest
      else [[s[0]] + rest[0]] + rest[1..]
  }

  /** Splitting a separator-free string gives the string itself. */
  lemma SplitOnAvoiding(s: string, seps: set<char>)
    requires Avoids(s, seps)
    ensures SplitOn(s, seps) == [s]
  {
    if s != [] {
      SplitOnAvoiding(s[1..], seps);
      assert [s[0]] + s[1..] == s;
    }
  }

  /** Splitting `a + [c] + b` at the separator `c` cuts exactly after `a`
      when `a` holds no separator. */
  lemma SplitOnFirst(a: string, c: char, b: string, seps: set<char>)
    requires c in seps && Avoids(a, seps)
    ensures SplitOn(a + [c] + b, seps) == [a] + SplitOn(b, seps)
    decreases |a|
  {
    var s := a + [c] + b;
    if a == [] {
      assert s[1..] == b;
    } else {
      SplitOnFirst(a[1..], c, b, seps);
      assert s[1..] == a[1..] + [c] + b;
      assert [a[0]] + a[1..] == a;
    }
  }

  /** Split inverts join, for a one-character separator that no part holds. */
  lemma {:induction false} SplitOnJoin(parts: seq<string>, c: char, seps: set<char>)
    requires |parts| >= 1 && c in seps
    requires forall k :: 0 <= k < |parts| ==> Avoids(parts[k], seps)
    ensures SplitOn(Join(parts, [c]), seps) == parts
    decreases |parts|
  {
    if |parts| == 1 {
      SplitOnAvoiding(parts[0], seps);
    } else {
      SplitOnJoin(parts[1..], c, seps);
      SplitOnFirst(parts[0], c, Join(parts[1..], [c]), seps);
      assert [parts[0]] + parts[1..] == parts;
    }
  }

  /** Counting is additive over concatenation. */
  lemma {:induction false} CountAppend(a: string, b: string, seps: set<char>)
    ensures Count(a + b, seps) == Count(a, seps) + Count(b, seps)
    decreases |a|
  {
    if a != [] {
      CountAppend(a[1..], b, seps);
      assert (a + b)[1..] == a[1..] + b;
    } else {
      assert a + b == b;
    }
  }

  /** A string avoids a set of characters exactly when it counts none. */
  lemma {:induction false} CountAvoids(s: string, seps: set<char>)
    ensures Avoids(s, seps) <==> Count(s, seps) == 0
    decreases |s|
  {
    if s != [] {
      CountAvoids(s[1..], seps);
      assert forall k :: 1 <= k < |s| ==> s[k] == s[1..][k - 1];
    }
  }

  /** Joining parts free of `seps` counts only the separators' characters:
      none when the separator holds none, one per separator when it holds one. */
  lemma {:induction false} JoinCount(parts: seq<string>, sep: string, seps: set<char>)
    requires |parts| >= 1
    requires forall k :: 0 <= k < |parts| ==> Avoids(parts[k], seps)
    ensures Count(sep, seps) == 0 ==> Count(Join(parts, sep), seps) == 0
    ensures Count(sep, seps) == 1 ==> Count(Join(parts, sep), seps) == |parts| - 1
    decreases |parts|
  {
    CountAvoids(parts[0], seps);
    if |parts| > 1 {
      JoinCount(parts[1..], sep, seps);
      CountAppend(parts[0] + sep, Join(parts[1..], sep), seps);
      CountAppend(parts[0], sep, seps);
    }
  }

  /** Joining parts and a separator that avoid `seps` avoids `seps`. */
  lemma JoinAvoids(parts: seq<string>, sep: string, seps: set<char>)
    requires |parts| >= 1 && Avoids(sep, seps)
    requires forall k :: 0 <= k < |parts| ==> Avoids(parts[k], seps)
    ensures Avoids(Join(parts, sep), seps)
  {
    JoinCount(parts, sep, seps);
    CountAvoids(sep, seps);
    CountAvoids(Join(parts, sep), seps);
  }

  /** Every character of a piece of `SplitOn(s, seps)` comes from `s`. */
  lemma {:induction false} SplitOnKeeps(s: string, seps: set<char>, k: nat, c: char)
    requires k < |SplitOn(s, seps)| && c in SplitOn(s, seps)[k]
    ensures c in s
    decreases |s|
  {
    if s != [] {
      var rest := SplitOn(s[1..], seps);
      if s[0] in seps {
        if k > 0 {
          SplitOnKeeps(s[1..], seps, k - 1, c);
        }
      } else if k == 0 {
        if c != s[0] {
          SplitOnKeeps(s[1..], seps, 0, c);
        }
      } else {
        SplitOnKeeps(s[1..], seps, k, c);
      }
    }
  }

  /** Splitting `Join(qs, [c]) + [d] + rest`, where `c` and `d` are
      separators and no part of `qs` holds one, gives `qs` and then the
      pieces of `rest`. */
  lemma {:induction false} SplitOnJoinThen(qs: seq<string>, c: char, d: char, rest: string, seps: set<char>)
    requires |qs| >= 1 && c in seps && d in seps
    requires forall k :: 0 <= k < |qs| ==> Avoids(qs[k], seps)
    ensures SplitOn(Join(qs, [c]) + [d] + rest, seps) == qs + SplitOn(rest, seps)
    decreases |qs|
  {
    if |qs| == 1 {
      SplitOnFirst(qs[0], d, rest, seps);
      assert [qs[0]] == qs;
    } else {
      var j := Join(qs[1..], [c]);
      var tail := j + [d] + rest;
      SplitOnJoinThen(qs[1..], c, d, rest, seps);
      assert Join(qs, [c]) == qs[0] + [c] + j;
      Regroup(qs[0] + [c], j, [d], rest);
      SplitOnFirst(qs[0], c, tail, seps);
      ConsRest(qs, SplitOn(rest, seps));
    }
  }

  /** Regrouping a concatenation of four pieces. */
  lemma Regroup<T>(p: seq<T>, j: seq<T>, m: seq<T>, r: seq<T>)
    ensures p + j + m + r == p + (j + m + r)
  {
  }

  /** Putting the head back in front of the tail. */
  lemma ConsRest<T>(xs: seq<T>, s: seq<T>)
    requires |xs| >= 1
    ensures [xs[0]] + (xs[1..] + s) == xs + s
  {
    assert [xs[0]] + xs[1..] == xs;
  }

  /** A leading character that is no separator sticks to the first piece. */
  lemma SplitOnCons(x: char, s: string, seps: set<char>)
    requires x !in seps
    ensures SplitOn([x] + s, seps) == [[x] + SplitOn(s, seps)[0]] + SplitOn(s, seps)[1..]
  {
    assert ([x] + s)[1..] == s;
  }

  /** A slice of `s` is the slice one further along once a character is put in front. */
  lemma SliceCons<T>(c: T, s: seq<T>, i: nat, j: nat)
    requires i <= j <= |s|
    ensures ([c] + s)[i + 1..j + 1] == s[i..j]
  {
    var x := [c] + s;
    forall k | 0 <= k < j - i ensures x[i + 1..j + 1][k] == s[i..j][k] {
      assert x[i + 1 + k] == s[i + k];
    }
    SameElements(x[i + 1..j + 1], s[i..j]);
  }

  /** Two sequences with the same elements at every index are equal. */
  lemma SameElements<T>(a: seq<T>, b: seq<T>)
    requires |a| == |b|
    requires forall k :: 0 <= k < |a| ==> a[k] == b[k]
    ensures a == b
  {
  }

  // ---------------------------------------------------------------- filtering

  /** `Array.prototype.filter`: the elements that pass, in their order. */
  function Filter<T(!new)>(xs: seq<T>, p: T -> bool): (r: seq<T>)
    ensures |r| <= |xs|
    ensures forall k :: 0 <= k < |r| ==> p(r[k])
    ensures forall x :: x in r <==> x in xs && p(x)
  {
    if xs == [] then []
    else (if p(xs[0]) then [xs[0]] else []) + Filter(xs[1..], p)
  }

  /** The first element kept is the first element that passes. */
  lemma {:induction false} FilterFirst<T(!new)>(xs: seq<T>, p: T -> bool, i: nat)
    requires i < |xs| && p(xs[i])
    requires forall k :: 0 <= k < i ==> !p(xs[k])
    ensures Filter(xs, p) != [] && Filter(xs, p)[0] == xs[i]
  {
    if i > 0 {
      assert forall k :: 0 <= k < i - 1 ==> xs[1..][k] == xs[k + 1];
      FilterFirst(xs[1..], p, i - 1);
    }
  }

  /** Filtering a concatenation filters each part: the kept elements stay
      in their order. */
  lemma {:induction false} FilterAppend<T(!new)>(a: seq<T>, b: seq<T>, p: T -> bool)
    ensures Filter(a + b, p) == Filter(a, p) + Filter(b, p)
    decreases |a|
  {
    if a == [] {
      assert a + b == b;
    } else {
      var head := if p(a[0]) then [a[0]] else [];
      FilterAppend(a[1..], b, p);
      assert (a + b)[0] == a[0] && (a + b)[1..] == a[1..] + b;
      calc {
        Filter(a + b, p);
        head + Filter(a[1..] + b, p);
        head + (Filter(a[1..], p) + Filter(b, p));
        { AppendAssoc(head, Filter(a[1..], p), Filter(b, p)); }
        (head + Filter(a[1..], p)) + Filter(b, p);
        Filter(a, p) + Filter(b, p);
      }
    }
  }

  /** Concatenation is associative. */
  lemma AppendAssoc<T>(a: seq<T>, b: seq<T>, c: seq<T>)
    ensures a + (b + c) == (a + b) + c
  {
  }

  /** A single element is kept exactly when it passes. */
  lemma FilterSingle<T(!new)>(x: T, p: T -> bool)
    ensures Filter([x], p) == if p(x) then [x] else []
  {
    assert [x][1..] == [];
  }

  /** The values held by the `Some` entries, in order. */
  function Somes<T(!new)>(xs: seq<Option<T>>): (r: seq<T>)
    ensures |r| <= |xs|
    ensures forall x :: x in r <==> Some(x) in xs
  {
    if xs == [] then []
    else
      var init := Somes(xs[..|xs| - 1]);
      assert xs == xs[..|xs| - 1] + [xs[|xs| - 1]];
      match xs[|xs| - 1]
      case None => init
      case Some(x) => init + [x]
  }

  /** The values of a concatenation are the values of each part, in order. */
  lemma {:induction false} SomesAppend<T(!new)>(a: seq<Option<T>>, b: seq<Option<T>>)
    ensures Somes(a + b) == Somes(a) + Somes(b)
    decreases |b|
  {
    if b == [] {
      assert a + b == a;
    } else {
      var init := b[..|b| - 1];
      SomesAppend(a, init);
      assert (a + b)[..|a + b| - 1] == a + init;
      assert (a + b)[|a + b| - 1] == b[|b| - 1];
    }
  }

  /** The value of one entry, if it has one. */
  lemma SomesSingle<T(!new)>(x: Option<T>)
    ensures Somes([x]) == if x.Some? then [x.value] else []
  {
    assert [x][..0] == [];
  }

  /** The parts, one after the other. */
  function Concat<T>(parts: seq<seq<T>>): (r: seq<T>)
    ensures parts == [] ==> r == []
    decreases |parts|
  {
    if parts == [] then [] else parts[0] + Concat(parts[1..])
  }

  // ---------------------------------------------------------------- deduplication

  predicate NoDuplicates<T(==)>(s: seq<T>) {
    forall i, j :: 0 <= i < j < |s| ==> s[i] != s[j]
  }

  /** The distinct elements of `xs` in first-seen order: what `[...new Set(xs)]`
      gives, and what pushing each element unless `includes` already finds it
      builds. */
  function Distinct<T(==,!new)>(xs: seq<T>): (r: seq<T>)
    ensures forall x :: x in r <==> x in xs
    ensures |r| <= |xs|
  {
    if xs == [] then []
    else
      var init := xs[..|xs| - 1];
      var last := xs[|xs| - 1];
      assert xs == init + [last];
      var d := Distinct(init);
      if last in d then d else d + [last]
  }

  /** `Distinct` holds no element twice. */
  lemma {:induction false} DistinctUnique<T(!new)>(xs: seq<T>)
    ensures NoDuplicates(Distinct(xs))
    decreases |xs|
  {
    if xs != [] {
      DistinctUnique(xs[..|xs| - 1]);
    }
  }

  /** Position of the first occurrence of `x` in `xs`. */
  function FirstIndex<T(==,!new)>(xs: seq<T>, x: T): (i: nat)
    requires x in xs
    ensures i < |xs| && xs[i] == x
    ensures forall j :: 0 <= j < i ==> xs[j] != x
  {
    if xs[0] == x then 0 else 1 + FirstIndex(xs[1..], x)
  }

  /** The first occurrence is the one with no earlier occurrence. */
  lemma {:induction false} FirstIndexUnique<T(!new)>(xs: seq<T>, x: T, i: nat)
    requires i < |xs| && xs[i] == x
    requires forall j :: 0 <= j < i ==> xs[j] != x
    ensures FirstIndex(xs, x) == i
  {
    if i > 0 {
      assert xs[1..][i - 1] == x;
      assert forall j :: 0 <= j < i - 1 ==> xs[1..][j] == xs[j + 1];
      FirstIndexUnique(xs[1..], x, i - 1);
    }
  }

  /** An element of a prefix first occurs at the same place in the whole sequence. */
  lemma FirstIndexPrefix<T(!new)>(xs: seq<T>, n: nat, x: T)
    requires n <= |xs| && x in xs[..n]
    ensures x in xs && FirstIndex(xs[..n], x) == FirstIndex(xs, x)
  {
    var p := xs[..n];
    var i := FirstIndex(p, x);
    assert forall j :: 0 <= j <= i ==> p[j] == xs[j];
    FirstIndexUnique(xs, x, i);
  }

  /** `Distinct` keeps first-seen order: earlier entries first occur earlier in the input. */
  lemma {:induction false} DistinctOrder<T(!new)>(xs: seq<T>)
    ensures forall i, j :: 0 <= i < j < |Distinct(xs)| ==>
      FirstIndex(xs, Distinct(xs)[i]) < FirstIndex(xs, Distinct(xs)[j])
    decreases |xs|
  {
    if xs != [] {
      var n := |xs| - 1;
      var init := xs[..n];
      var d := Distinct(init);
      var r := Distinct(xs);
      DistinctOrder(init);
      forall i, j | 0 <= i < j < |r|
        ensures FirstIndex(xs, r[i]) < FirstIndex(xs, r[j])
      {
        DistinctStep(xs, i, j);
      }
    }
  }

  /** One pair of entries of `Distinct(xs)`, given the order already holds
      for the input without its last element. */
  lemma DistinctStep<T(!new)>(xs: seq<T>, i: nat, j: nat)
    requires xs != [] && i < j < |Distinct(xs)|
    requires var init := xs[..|xs| - 1];
      forall i, j :: 0 <= i < j < |Distinct(init)| ==>
        FirstIndex(init, Distinct(init)[i]) < FirstIndex(init, Distinct(init)[j])
    ensures FirstIndex(xs, Distinct(xs)[i]) < FirstIndex(xs, Distinct(xs)[j])
  {
    var n := |xs| - 1;
    var init := xs[..n];
    var d := Distinct(init);
    var r := Distinct(xs);
    assert r == (if xs[n] in d then d else d + [xs[n]]);
    assert FirstIndex(xs, r[i]) == FirstIndex(init, d[i]) by {
      assert r[i] == d[i] && d[i] in init;
      FirstIndexPrefix(xs, n, d[i]);
    }
    if j < |d| {
      assert FirstIndex(xs, r[j]) == FirstIndex(init, d[j]) by {
        assert r[j] == d[j] && d[j] in init;
        FirstIndexPrefix(xs, n, d[j]);
      }
    } else {
      assert FirstIndex(xs, r[j]) == n by {
        assert r[j] == xs[n] && xs[n] !in init;
        assert forall k :: 0 <= k < n ==> xs[k] == init[k];
        FirstIndexUnique(xs, xs[n], n);
      }
    }
  }

  // ---------------------------------------------------------------- case

  /** `toLowerCase` on the scripts the source text uses: Latin capitals and the
      Cyrillic capitals U+0400..U+042F; every other character is unchanged. */
  function LowerChar(c: char): char {
    if 'A' <= c <= 'Z' || '\U{0410}' <= c <= '\U{042F}' then (c as int + 32) as char
    else if '\U{0400}' <= c <= '\U{040F}' then (c as int + 80) as char
    else c
  }

  function Lower(s: string): string {
    seq(|s|, i requires 0 <= i < |s| => LowerChar(s[i]))
  }
}
